/** Everything the user has sent can still arrive: from every reachable world there are steps of the two ends and of
    the network after which the other user has read it all. */
module Recovery {
  import opened Packets
  import opened SenderSpec
  import opened ReceiverSpec
  import opened Protocol
  import opened Runs
  import opened Effects

  // ----- steps in which the user sends nothing more

  ghost predicate Path(w: World, steps: seq<Step>, w': World)
    decreases |steps|
  {
    if steps == [] then w' == w
    else !steps[0].UserSends? && exists w1 :: Next(w, steps[0], w1) && Path(w1, steps[1..], w')
  }

  /** What was said on the network is still there, and what the users and the handshake have settled has not
      changed. */
  ghost predicate Later(w: World, w': World) {
    && Inv(w')
    && w'.snd.log == w.snd.log && w'.snd.mss == w.snd.mss && w'.snd.frags == w.snd.frags
    && w'.rcv.size == w.rcv.size && w'.rcv.isStream == w.rcv.isStream
    && w.net <= w'.net
  }

  /** There are steps from one world to the other. */
  ghost predicate Leads(w: World, w': World) {
    Later(w, w') && exists steps :: Path(w, steps, w')
  }

  lemma {:induction false} PathJoin(w: World, steps: seq<Step>, w1: World, more: seq<Step>, w': World)
    requires Path(w, steps, w1) && Path(w1, more, w')
    ensures Path(w, steps + more, w')
    decreases |steps|
  {
    hide Next;
    if steps == [] {
      assert steps + more == more;
    } else {
      var w0 :| Next(w, steps[0], w0) && Path(w0, steps[1..], w1);
      PathJoin(w0, steps[1..], w1, more, w');
      assert (steps + more)[1..] == steps[1..] + more;
    }
  }

  lemma LeadsOn(w: World, w1: World, w': World)
    requires Leads(w, w1) && Leads(w1, w')
    ensures Leads(w, w')
  {
    hide Path, Inv;
    var steps :| Path(w, steps, w1);
    var more :| Path(w1, more, w');
    PathJoin(w, steps, w1, more, w');
  }

  lemma LeadsNowhere(w: World)
    requires Inv(w)
    ensures Leads(w, w)
  {
    hide Inv;
    assert Path(w, [], w);
  }

  lemma StepLeads(w: World, step: Step, w': World)
    requires Inv(w) && Next(w, step, w') && !step.UserSends?
    ensures Leads(w, w')
  {
    hide Inv, Next;
    StepKeepsInv(w, step, w');
    StepKeepsLog(w, step, w');
    StepKeepsSetup(w, step, w');
    NetGrows(w, step, w');
    assert Path(w', [], w');
    assert Path(w, [step], w');
  }

  lemma NetGrows(w: World, step: Step, w': World)
    requires Next(w, step, w')
    ensures w.net <= w'.net
  {
    hide OnNak, OnAck, OnLightAck, RecvMsg, SkipTaken, Recv, OnData, SendAck, OnAck2, UserSend, PackNew, PackPicked;
  }

  // ----- a lost packet is sent again

  /** Nothing has happened but to the list of losses and the network. */
  ghost predicate OnlyLosses(w: World, w': World) {
    w'.rcv == w.rcv && w'.snd == w.snd.(loss := w'.snd.loss, picked := w'.snd.picked)
  }

  lemma Resend(w: World) returns (w': World)
    requires Inv(w) && w.snd.picked.Some?
    ensures Leads(w, w') && OnlyLosses(w, w') && w'.snd.picked == None && w'.snd.loss == w.snd.loss
    ensures var n := w.snd.picked.value; w.snd.dataAck <= n < |w.snd.frags| ==> Data(n, w.snd.frags[n]) in w'.net
  {
    hide Inv, PackPicked, Leads;
    var res := PackPicked(w.snd);
    w' := World(res.0, w.rcv, w.net + Sent(res.1));
    Retransmission(w, w');
    StepLeads(w, PacksPicked, w');
  }

  /** The smallest number of the list is sent again. */
  lemma ResendFirst(w: World, n: int) returns (w': World)
    requires Inv(w) && w.snd.picked == None && n in w.snd.loss && forall x :: x in w.snd.loss ==> n <= x
    ensures Leads(w, w') && OnlyLosses(w, w') && w'.snd.picked == None && w'.snd.loss == w.snd.loss - {n}
    ensures n < |w.snd.frags| && Data(n, w.snd.frags[n]) in w'.net
  {
    hide Inv, Pick, Leads;
    var w1 := World(Pick(w.snd), w.rcv, w.net + Sent([]));
    LossTaken(w, w1);
    StepLeads(w, PicksLost, w1);
    LossIsSent(w, n);
    LeadsKeeps(w, w1);
    w' := Resend(w1);
    LeadsOn(w, w1, w');
  }

  lemma LossIsSent(w: World, n: int)
    requires Inv(w) && n in w.snd.loss
    ensures w.snd.dataAck <= n < |w.snd.frags|
  {
  }

  lemma LeadsKeeps(w: World, w': World)
    requires Leads(w, w')
    ensures Later(w, w')
  {
  }

  lemma {:induction false} ClearLosses(w: World) returns (w': World)
    requires Inv(w) && w.snd.picked == None
    ensures Leads(w, w') && OnlyLosses(w, w') && w'.snd.picked == None && w'.snd.loss == {}
    decreases |w.snd.loss|
  {
    hide Inv, Leads;
    if w.snd.loss == {} {
      LeadsNowhere(w);
      w' := w;
    } else {
      var n := Min(w.snd.loss);
      var w1 := ResendFirst(w, n);
      LeadsKeeps(w, w1);
      w' := ClearLosses(w1);
      LeadsOn(w, w1, w');
    }
  }

  /** A number in the list gets its turn. */
  lemma {:induction false} ResendLoss(w: World, n: int) returns (w': World)
    requires Inv(w) && w.snd.picked == None && n in w.snd.loss
    ensures Leads(w, w') && OnlyLosses(w, w') && n < |w.snd.frags| && Data(n, w.snd.frags[n]) in w'.net
    decreases |w.snd.loss|
  {
    hide Inv, Leads;
    var m := Min(w.snd.loss);
    var w1 := ResendFirst(w, m);
    if m == n {
      w' := w1;
    } else {
      LeadsKeeps(w, w1);
      w' := ResendLoss(w1, n);
      LeadsOn(w, w1, w');
    }
  }

  /** Whatever has been lost: a packet that has not been acknowledged is sent again in the end. */
  lemma SendAgain(w: World, n: int) returns (w': World)
    requires Inv(w) && w.snd.lastAck <= n <= w.snd.curr < |w.snd.frags|
    ensures Leads(w, w') && OnlyLosses(w, w') && Data(n, w.snd.frags[n]) in w'.net
  {
    hide Inv, Leads, OnExpire;
    var w1 := w;
    LeadsNowhere(w);
    if w.snd.picked.Some? {
      w1 := Resend(w);
      LeadsKeeps(w, w1);
    }
    var w2 := ClearLosses(w1);
    LeadsOn(w, w1, w2);
    LeadsKeeps(w, w2);
    var w3 := World(OnExpire(w2.snd), w2.rcv, w2.net + Sent([]));
    Expiry(w2, w3);
    StepLeads(w2, Expires, w3);
    LeadsOn(w, w2, w3);
    LeadsKeeps(w, w3);
    w' := ResendLoss(w3, n);
    LeadsOn(w, w3, w');
  }

  // ----- the first missing packet arrives

  /** An acknowledgement of everything before `n` can be delivered, and it opens the window. */
  ghost predicate CanAcknowledge(w: World, n: int) {
    exists m :: m in w.net && m.Ack? && m.ack == n && m.window >= 2
  }

  /** Everything before the first missing number is acknowledged, and the sender told unless it is known to know. */
  lemma Acknowledge(w: World, n: int) returns (w': World)
    requires Inv(w) && IsFirstMissing(w.rcv, n)
    ensures Leads(w, w') && w'.snd == w.snd
    ensures w'.rcv == w.rcv.(lastAck := n, ackNo := w'.rcv.ackNo, acks := w'.rcv.acks)
    ensures n > w.rcv.lastAckAck ==> CanAcknowledge(w', n)
  {
    hide Inv, Leads, SendAck;
    var res := SendAck(w.rcv, true);
    w' := World(w.snd, res.0, w.net + Sent(res.1));
    AckSent(w, true, n, w');
    StepLeads(w, AckTimer(true), w');
    if n > w.rcv.lastAckAck {
      var m := Ack(IncAck(w.rcv.ackNo), n, Larger(2, RoomLeft(w'.rcv)));
      assert m in w'.net;
    }
  }

  /** A packet on the network arrives where there is room for it. */
  lemma Deliver(w: World, n: int) returns (w': World, n': int)
    requires Inv(w) && IsFirstMissing(w.rcv, n) && w.rcv.lastAck == n < RightEdge(w.rcv)
    requires n < |w.snd.frags| && Data(n, w.snd.frags[n]) in w.net
    ensures Leads(w, w') && w'.snd == w.snd && n < n' && IsFirstMissing(w'.rcv, n')
    ensures w'.rcv.lastAckAck == w.rcv.lastAckAck && w'.rcv.taken == w.rcv.taken
    ensures w'.rcv.got == w.rcv.got
  {
    hide Leads, OnData, SenderInv, AgreeInv, StreamInv, MessageInv, MsgInv;
    var f := w.snd.frags[n];
    var res := OnData(w.rcv, n, f);
    w' := World(w.snd, res.0, w.net + Sent(res.1));
    DataStored(w, n, f, false, w');
    StepLeads(w, ReceiverGets(Data(n, f), false), w');
    LeadsKeeps(w, w');
    AckIsFirstMissing(w'.rcv);
    n' := AckValue(w'.rcv);
    assert forall m :: 0 <= m <= n ==> m in w'.rcv.stored;
  }

  /** The sender takes over an acknowledgement of everything it has sent. */
  lemma TakeAck(w: World, n: int) returns (w': World)
    requires Inv(w) && CanAcknowledge(w, n) && w.snd.lastAck <= n
    ensures Leads(w, w') && w'.rcv == w.rcv && w'.snd.curr == w.snd.curr
    ensures w'.snd.lastAck == n && w'.snd.window >= 2
  {
    hide Inv, Leads, OnAck;
    var m :| m in w.net && m.Ack? && m.ack == n && m.window >= 2;
    var res := OnAck(w.snd, m.ackNo, m.ack, m.window, false);
    w' := World(res.0, w.rcv, w.net + Sent(res.1));
    AckTaken(w, m.ackNo, m.ack, m.window, false, w');
    StepLeads(w, SenderGets(m, false), w');
  }

  /** A packet is sent for the first time when the flow window allows it and the congestion window does not
      forbid it. */
  lemma SendFirst(w: World, n: int) returns (w': World)
    requires Inv(w) && n == w.snd.curr + 1 && 0 <= n < |w.snd.frags| && n < w.snd.lastAck + w.snd.window
    ensures Leads(w, w') && w'.rcv == w.rcv && w'.snd == w.snd.(curr := n)
    ensures Data(n, w.snd.frags[n]) in w'.net
  {
    hide Inv, Leads, SenderSpec.PackNew;
    var cwnd := n - w.snd.lastAck + 1;
    var res := SenderSpec.PackNew(w.snd, cwnd);
    w' := World(res.0, w.rcv, w.net + Sent(res.1));
    FirstTransmission(w, cwnd, w');
    StepLeads(w, PacksNew(cwnd), w');
  }

  /** Everything that has been sent has arrived, the receiver takes the sender to know it, and yet the sender may not
      send what is still to be sent. */
  ghost predicate Stuck(w: World) {
    var n := w.snd.curr + 1;
    w.rcv.lastAckAck == n < |w.snd.frags| && w.snd.lastAck + w.snd.window <= n
  }

  /** The first missing packet is sent. */
  lemma SendMissing(w: World, n: int) returns (w': World)
    requires Inv(w) && IsFirstMissing(w.rcv, n) && n < |w.snd.frags| && w.rcv.lastAck == n
    requires !Stuck(w) && (n > w.rcv.lastAckAck ==> CanAcknowledge(w, n))
    ensures Leads(w, w') && w'.rcv == w.rcv && Data(n, w.snd.frags[n]) in w'.net
  {
    hide Leads, StreamInv, MessageInv, MsgInv;
    assert w.snd.lastAck <= n <= w.snd.curr + 1;
    if n <= w.snd.curr {
      w' := SendAgain(w, n);
    } else if n > w.rcv.lastAckAck {
      var w1 := TakeAck(w, n);
      LeadsKeeps(w, w1);
      w' := SendFirst(w1, n);
      LeadsOn(w, w1, w');
    } else {
      w' := SendFirst(w, n);
    }
  }

  // ----- the other user reads

  /** Only the other user's reading has gone on. */
  ghost predicate OnlyReads(w: World, w': World) {
    && w'.snd == w.snd && w'.net == w.net
    && w'.rcv == w.rcv.(start := w'.rcv.start, notch := w'.rcv.notch, taken := w'.rcv.taken, out := w'.rcv.out,
                        got := w'.rcv.got)
  }

  /** The deliveries since then were asked for with a buffer of `len` bytes. */
  ghost predicate GotSince(w: World, w': World, len: nat) {
    w.rcv.got <= w'.rcv.got && forall i :: |w.rcv.got| <= i < |w'.rcv.got| ==> w'.rcv.got[i].len == len
  }

  /** A stream is read up to the end of what has been acknowledged. */
  lemma ReadStream(w: World) returns (w': World)
    requires Inv(w) && w.rcv.isStream
    ensures Leads(w, w') && OnlyReads(w, w') && w'.rcv.start == w.rcv.lastAck
  {
    hide Leads, Readable, ReadFrom, SenderInv, MessageInv, MsgInv, AgreeInv, ReceiverInv;
    var (s, r) := (w.snd, w.rcv);
    var len := |Bytes(s.frags)| + 1;
    AckedIsReadable(s, r);
    ReadToTheEnd(s, r, len);
    w' := World(s, Recv(r, len), w.net + Sent([]));
    StepLeads(w, UserReceives(len), w');
    SentIs([]);
  }

  lemma ReadToTheEnd(s: Snd, r: Rcv, len: nat)
    requires SenderInv(s, r.size) && ReceiverInv(r) && AgreeInv(s, r) && StreamInv(s, r) && r.isStream
    requires len > |Bytes(s.frags)| && Readable(r.stored, r.start, r.lastAck, r.notch)
    ensures ReadFrom(r.stored, r.start, r.lastAck, r.notch, len).pos == r.lastAck
  {
    hide ReadFrom, Bytes, Stream;
    ReadFromMeaning(r.stored, s.frags, r.start, r.lastAck, r.notch, len);
    var c := ReadFrom(r.stored, r.start, r.lastAck, r.notch, len);
    UptoIsPrefix(s.frags, c.pos, c.notch);
  }

  /** The number of packets of message `k`. */
  ghost function PacketsOf(s: Snd, k: nat): int
    requires s.mss > 0 && k < |s.log|
  {
    MsgStart(s.log, s.mss, k + 1) - MsgStart(s.log, s.mss, k)
  }

  /** What has been read at the front is released. */
  lemma Release(w: World) returns (w': World)
    requires Inv(w) && !w.rcv.isStream
    ensures Leads(w, w') && OnlyReads(w, w') && w'.rcv.got == w.rcv.got && w.rcv.start <= w'.rcv.start
    ensures w'.rcv.start < w.rcv.lastAck ==> w'.rcv.start !in w'.rcv.taken
  {
    hide Inv, Leads, SkipTaken;
    SkipTakenMeaning(w.rcv);
    w' := World(w.snd, SkipTaken(w.rcv), w.net + Sent([]));
    SentIs([]);
    StepLeads(w, UserAsksForMessage, w');
  }

  /** The next message of those acknowledged is read. */
  lemma ReadNext(w: World, k: nat, len: nat) returns (w': World)
    requires Inv(w) && !w.rcv.isStream && w.rcv.start !in w.rcv.taken && k < |w.snd.log|
    requires w.rcv.start == MsgStart(w.snd.log, w.snd.mss, k)
    requires MsgStart(w.snd.log, w.snd.mss, k + 1) <= w.rcv.lastAck
    ensures Leads(w, w') && OnlyReads(w, w') && w'.rcv.start == MsgStart(w.snd.log, w.snd.mss, k + 1)
    ensures GotSince(w, w', len)
  {
    hide Leads, Bytes, Truncated, Slice, Stream, StreamInv, MessageInv, MsgInv, AgreeInv, MsgStart, Whole;
    var (s, r) := (w.snd, w.rcv);
    var p, q := MsgStart(s.log, s.mss, k), MsgStart(s.log, s.mss, k + 1) - 1;
    MessageNotEmpty(s, k);
    UnreadMessageIsWhole(s, r, k);
    assert Deliverable(r, p, q);
    FrontIsFirst(r, p, q);
    w' := w.(rcv := Take(r, p, q, len));
    assert SkipTaken(r) == r;
    StepLeads(w, UserReceivesMessage(len), w');
  }

  lemma FrontIsFirst(r: Rcv, p: int, q: int)
    requires Deliverable(r, p, q) && p == r.start
    ensures FirstDeliverable(r, p, q)
  {
  }

  /** Messages are read until none is left of what has been acknowledged, but perhaps a part of message `k`. */
  lemma {:induction false} ReadMessages(w: World, len: nat) returns (w': World, k: nat)
    requires Inv(w) && !w.rcv.isStream
    ensures Leads(w, w') && OnlyReads(w, w') && GotSince(w, w', len)
    ensures w'.rcv.start < w.rcv.lastAck ==>
            && w.snd.mss > 0 && k < |w.snd.log|
            && w'.rcv.start == MsgStart(w.snd.log, w.snd.mss, k)
            && w.rcv.lastAck < MsgStart(w.snd.log, w.snd.mss, k + 1)
    ensures w'.rcv.start <= w.rcv.lastAck
    decreases w.rcv.lastAck - w.rcv.start
  {
    hide Leads, MsgStart, Stream, StreamInv, MessageInv, MsgInv;
    var w1 := Release(w);
    LeadsKeeps(w, w1);
    w', k := w1, 0;
    if w1.rcv.start < w.rcv.lastAck {
      k := StartIsHead(w1.snd, w1.rcv);
      if MsgStart(w.snd.log, w.snd.mss, k + 1) <= w.rcv.lastAck {
        MessageNotEmpty(w.snd, k);
        var w2 := ReadNext(w1, k, len);
        LeadsOn(w, w1, w2);
        LeadsKeeps(w, w2);
        w', k := ReadMessages(w2, len);
        LeadsOn(w, w2, w');
      }
    }
  }

  /** No message is longer than the receive buffer can hold. */
  ghost predicate MessagesFit(s: Snd, size: nat) {
    forall k :: 0 <= k < |s.log| ==> |s.log[k].data| <= (size - 1) * s.mss
  }

  /** A message has at most so many packets if and only if they have room for its bytes. */
  lemma FewPacketsIsFewBytes(s: Snd, k: nat, c: nat)
    requires s.mss > 0 && k < |s.log|
    ensures PacketsOf(s, k) <= c <==> |s.log[k].data| <= c * s.mss
  {
    hide Chop, MsgStart;
    var m := s.log[k];
    MsgIsSlice(s.log, s.mss, k);
    ChopCount(m.data, m.no, m.inOrder, true, s.mss, c);
  }

  lemma {:induction false} ChopCount(data: seq<Byte>, no: bv32, inOrder: bool, first: bool, mss: nat, c: nat)
    requires mss > 0
    ensures |Chop(data, no, inOrder, first, mss)| <= c <==> |data| <= c * mss
    decreases |data|
  {
    if |data| > mss && c > 0 {
      ChopCount(data[mss..], no, inOrder, false, mss, c - 1);
      assert (c - 1) * mss == c * mss - mss;
    } else if c > 0 {
      assert c * mss >= mss;
    }
  }

  /** The reader can get out of the way. */
  ghost predicate CanRead(w: World) {
    w.rcv.isStream || MessagesFit(w.snd, w.rcv.size)
  }

  /** By reading, room is made for the first missing packet. */
  lemma MakeRoom(w: World, n: int, len: nat) returns (w': World)
    requires Inv(w) && CanRead(w) && w.rcv.lastAck == n
    ensures Leads(w, w') && OnlyReads(w, w') && GotSince(w, w', len)
    ensures n < RightEdge(w'.rcv) && (n == |w.snd.frags| ==> w'.rcv.start == n)
  {
    hide Leads, MsgStart, Stream, StreamInv, MessageInv, MsgInv;
    if w.rcv.isStream {
      w' := ReadStream(w);
      LeadsKeeps(w, w');
      StreamGetsNothing(w);
      StreamGetsNothing(w');
    } else {
      var k;
      w', k := ReadMessages(w, len);
      LeadsKeeps(w, w');
      if w'.rcv.start < n {
        FewPacketsIsFewBytes(w.snd, k, w.rcv.size - 1);
        MsgStartMonotone(w.snd.log, w.snd.mss, k + 1, |w.snd.log|);
      }
    }
  }

  lemma StreamGetsNothing(w: World)
    requires Inv(w) && w.rcv.isStream
    ensures w.rcv.got == []
  {
  }

  // ----- everything arrives

  lemma GotOn(w: World, w1: World, w': World, len: nat)
    requires GotSince(w, w1, len) && GotSince(w1, w', len)
    ensures GotSince(w, w', len)
  {
  }

  /** What is missing first arrives. */
  lemma Advance(w: World, n: int, len: nat) returns (w': World, n': int)
    requires Inv(w) && CanRead(w) && !Stuck(w) && IsFirstMissing(w.rcv, n) && n < |w.snd.frags|
    ensures Leads(w, w') && CanRead(w') && !Stuck(w') && n < n' && IsFirstMissing(w'.rcv, n')
    ensures GotSince(w, w', len)
  {
    hide Leads, StreamInv, MessageInv, MsgInv, SenderInv, AgreeInv, MessagesFit, RightEdge;
    var w1 := Acknowledge(w, n);
    LeadsKeeps(w, w1);
    CanReadLater(w, w1);
    var w2 := MakeRoom(w1, n, len);
    LeadsOn(w, w1, w2);
    LeadsKeeps(w, w2);
    LeadsKeeps(w1, w2);
    var w3 := SendMissing(w2, n);
    LeadsOn(w, w2, w3);
    LeadsKeeps(w, w3);
    w', n' := Deliver(w3, n);
    LeadsOn(w, w3, w');
    LeadsKeeps(w, w');
    CanReadLater(w, w');
    MissingIsNotStuck(w', n');
  }

  lemma MissingIsNotStuck(w: World, n: int)
    requires Inv(w) && IsFirstMissing(w.rcv, n) && w.rcv.lastAckAck < n
    ensures !Stuck(w)
  {
    assert w.rcv.curr + 1 !in w.rcv.stored;
  }

  lemma CanReadLater(w: World, w': World)
    requires CanRead(w) && Later(w, w')
    ensures CanRead(w')
  {
  }

  /** Packet by packet, everything arrives. */
  lemma {:induction false} AllArrives(w: World, n: int, len: nat) returns (w': World)
    requires Inv(w) && CanRead(w) && !Stuck(w) && IsFirstMissing(w.rcv, n) && n <= |w.snd.frags|
    ensures Leads(w, w') && CanRead(w') && IsFirstMissing(w'.rcv, |w.snd.frags|) && GotSince(w, w', len)
    decreases |w.snd.frags| - n
  {
    hide Inv, Leads, CanRead, Stuck, IsFirstMissing;
    if n == |w.snd.frags| {
      LeadsNowhere(w);
      w' := w;
    } else {
      var w1, n1 := Advance(w, n, len);
      LeadsKeeps(w, w1);
      MissingIsNext(w1, n1);
      w' := AllArrives(w1, n1, len);
      LeadsOn(w, w1, w');
      GotOn(w, w1, w', len);
    }
  }

  lemma MissingIsNext(w: World, n: int)
    requires Inv(w) && IsFirstMissing(w.rcv, n)
    ensures n <= w.snd.curr + 1 <= |w.snd.frags|
  {
    assert w.rcv.curr + 1 !in w.rcv.stored;
  }

  /** Everything is acknowledged and read. */
  ghost predicate AllRead(w: World) {
    w.rcv.start == w.rcv.lastAck == |w.snd.frags|
  }

  lemma AllIsRead(w: World, len: nat) returns (w': World)
    requires Inv(w) && CanRead(w) && !Stuck(w)
    ensures Leads(w, w') && AllRead(w') && GotSince(w, w', len)
  {
    hide Inv, Leads, CanRead, Stuck, IsFirstMissing;
    var n := FirstMissing(w);
    MissingIsNext(w, n);
    var w1 := AllArrives(w, n, len);
    LeadsKeeps(w, w1);
    var w2 := Acknowledge(w1, |w.snd.frags|);
    LeadsKeeps(w1, w2);
    CanReadLater(w1, w2);
    LeadsOn(w, w1, w2);
    w' := MakeRoom(w2, |w.snd.frags|, len);
    LeadsKeeps(w2, w');
    LeadsOn(w, w2, w');
  }

  lemma FirstMissing(w: World) returns (n: int)
    requires Inv(w)
    ensures IsFirstMissing(w.rcv, n)
  {
    AckIsFirstMissing(w.rcv);
    n := AckValue(w.rcv);
  }
}
