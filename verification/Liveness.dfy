/** In every run, at every moment, what has been sent can still arrive, whatever the network has lost; and
    exactly when it cannot. */
module Liveness {
  import opened Packets
  import opened SenderSpec
  import opened ReceiverSpec
  import opened Protocol
  import opened Runs
  import opened Effects
  import opened Recovery

  // ----- what it means that everything has been read

  lemma AllReadIsAllBytes(w: World)
    requires Inv(w) && w.rcv.isStream && AllRead(w)
    ensures w.rcv.out == UserBytes(w.snd.log)
  {
    StreamCarriesBytes(w.snd.log, w.snd.mss);
    assert w.snd.frags[..|w.snd.frags|] == w.snd.frags;
  }

  /** Message `k` has been delivered. */
  ghost predicate IsDelivered(w: World, k: nat) {
    w.snd.mss > 0 && exists i :: 0 <= i < |w.rcv.got| && DeliversMessage(w, i, k)
  }

  ghost predicate AllDelivered(w: World) {
    forall k :: 0 <= k < |w.snd.log| ==> IsDelivered(w, k)
  }

  lemma AllReadIsAllDelivered(w: World)
    requires Inv(w) && !w.rcv.isStream && AllRead(w)
    ensures AllDelivered(w)
  {
    hide Inv, DeliversMessage, IsDelivered, AllRead;
    forall k | 0 <= k < |w.snd.log| ensures IsDelivered(w, k) {
      MessageIsDelivered(w, k);
    }
  }

  lemma MessageIsDelivered(w: World, k: nat)
    requires Inv(w) && !w.rcv.isStream && AllRead(w) && k < |w.snd.log|
    ensures IsDelivered(w, k)
  {
    hide MsgStart, Stream, StreamInv, MsgInv, Bytes, Truncated;
    var s := w.snd;
    var n := MsgStart(s.log, s.mss, k);
    MessageNotEmpty(s, k);
    MsgStartMonotone(s.log, s.mss, k + 1, |s.log|);
    assert Delivered(w.rcv.got, n);
    var i :| 0 <= i < |w.rcv.got| && Covers(w.rcv.got[i], n);
    var j := DeliveryHasMessage(w, i);
    DeliveryIsMessage(s, w.rcv.got[i], k, n);
    SameStart(s, j, k);
  }

  // ----- the receiver takes the sender to know only what it can be told

  ghost predicate AckThere(net: set<Msg>, a: int) {
    exists m :: m in net && m.Ack? && m.ack == a
  }

  /** Every window announced is at least two packets wide, and what the receiver takes the sender to know, or may
      be answered to, has been said on the network. */
  ghost predicate AcksSaid(w: World) {
    && (forall m :: m in w.net && m.Ack? ==> m.window >= 2)
    && (w.snd.lastAck == 0 ==> w.snd.window >= 2)
    && (forall e :: e in w.rcv.acks ==> AckThere(w.net, e.ack))
    && (w.rcv.lastAckAck > 0 ==> AckThere(w.net, w.rcv.lastAckAck))
  }

  lemma StillSaid(w: World, net: set<Msg>)
    requires AcksSaid(w) && w.net <= net && forall m :: m in net && m.Ack? ==> m in w.net
    ensures AcksSaid(w.(net := net))
  {
    forall a | AckThere(w.net, a) ensures AckThere(net, a) {
    }
  }

  /** Steps that neither announce nor take over a window, nor touch the history of acknowledgements. */
  ghost predicate AcksUnaffected(w: World, w': World) {
    && w'.snd.lastAck == w.snd.lastAck && w'.snd.window == w.snd.window
    && w'.rcv.acks == w.rcv.acks && w'.rcv.lastAckAck == w.rcv.lastAckAck && w'.rcv.ackNo == w.rcv.ackNo
    && w.net <= w'.net && forall m :: m in w'.net && (m.Ack? || m.Ack2?) ==> m in w.net
  }

  lemma StepLeavesAcks(w: World, step: Step, w': World)
    requires Inv(w) && Next(w, step, w') && !step.AckTimer?
    requires step.SenderGets? ==> !step.toSender.Ack? && !step.toSender.LightAck?
    requires step.ReceiverGets? ==> !step.toReceiver.Ack2?
    ensures AcksUnaffected(w, w')
  {
    hide SenderInv, ReceiverInv, AgreeInv, StreamInv, MessageInv, SkipTaken, ReadFrom, Readable, Deliverable, OnNak;
    SkipTakenMeaning(w.rcv);
    if step.SenderGets? && step.toSender.Nak? {
      assert MsgInv(step.toSender, w.snd, w.rcv);
      NakKeepsInv(w.snd, w.rcv, step.toSender.items);
    }
  }

  lemma StepKeepsAcksSaid(w: World, step: Step, w': World)
    requires Inv(w) && Next(w, step, w') && AcksSaid(w)
    ensures AcksSaid(w')
  {
    hide Inv, Next, AcksUnaffected;
    match step
    case SenderGets(m, due) =>
      if m.Ack? || m.LightAck? {
        SenderKeepsAcksSaid(w, m, due, w');
      } else {
        StepLeavesAcks(w, step, w');
        UnaffectedKeepsAcksSaid(w, w');
      }
    case ReceiverGets(m, positive) =>
      if m.Ack2? {
        Ack2KeepsAcksSaid(w, m.ack2No, positive, w');
      } else {
        StepLeavesAcks(w, step, w');
        UnaffectedKeepsAcksSaid(w, w');
      }
    case AckTimer(repeat) =>
      AckTimerKeepsAcksSaid(w, repeat, w');
    case _ =>
      StepLeavesAcks(w, step, w');
      UnaffectedKeepsAcksSaid(w, w');
  }

  lemma UnaffectedKeepsAcksSaid(w: World, w': World)
    requires AcksUnaffected(w, w') && AcksSaid(w)
    ensures AcksSaid(w')
  {
    StillSaid(w, w'.net);
  }

  lemma SenderKeepsAcksSaid(w: World, m: Msg, due: bool, w': World)
    requires Inv(w) && Next(w, SenderGets(m, due), w') && AcksSaid(w) && (m.Ack? || m.LightAck?)
    ensures AcksSaid(w')
  {
    hide ReceiverInv, AgreeInv, StreamInv, MessageInv, MsgInv, AckThere, OnAck, OnLightAck;
    if m.Ack? {
      AckTaken(w, m.ackNo, m.ack, m.window, due, w');
    } else {
      LightAckTaken(w, m.lightAck, due, w');
    }
    StillSaid(w, w'.net);
  }

  lemma Ack2KeepsAcksSaid(w: World, no: int, positive: bool, w': World)
    requires Inv(w) && Next(w, ReceiverGets(Ack2(no), positive), w') && AcksSaid(w)
    ensures AcksSaid(w')
  {
    hide Inv, Next, AckThere;
    var i := FindAck(w.rcv.acks, no);
    Ack2Taken(w, no, positive, i, w');
  }

  lemma AckTimerKeepsAcksSaid(w: World, repeat: bool, w': World)
    requires Inv(w) && Next(w, AckTimer(repeat), w') && AcksSaid(w)
    ensures AcksSaid(w')
  {
    hide Inv, Next, IsFirstMissing, AckGoesOut, AcksSaid, IncAck, RoomLeft;
    var n := FirstMissing(w);
    AckSent(w, repeat, n, w');
    if AckIsDue(w.rcv, repeat, w'.rcv) {
      NewAckIsSaid(w, w', IncAck(w.rcv.ackNo), n, Larger(2, RoomLeft(w'.rcv)));
    } else {
      NothingNewIsSaid(w, n);
    }
  }

  lemma NothingNewIsSaid(w: World, n: int)
    requires AcksSaid(w)
    ensures AcksSaid(w.(rcv := w.rcv.(lastAck := n)))
  {
  }

  lemma NewAckIsSaid(w: World, w': World, no: int, n: int, window: int)
    requires AcksSaid(w) && w'.snd == w.snd && AckGoesOut(w, w', no, n, window) && window >= 2
    ensures AcksSaid(w')
  {
    hide AckThere, AckGoesOut;
    NewRecord(w, w', no, n, window);
    forall a | AckThere(w.net, a) ensures AckThere(w'.net, a) {
      MoreIsThere(w.net, Ack(no, n, window), a);
    }
    ThereNow(w.net, Ack(no, n, window));
  }

  lemma NewRecord(w: World, w': World, no: int, n: int, window: int)
    requires AckGoesOut(w, w', no, n, window)
    ensures w'.net == w.net + {Ack(no, n, window)} && w'.rcv.ackNo == no && w'.rcv.lastAckAck == w.rcv.lastAckAck
    ensures forall e :: e in w'.rcv.acks ==> e in w.rcv.acks || e == AckRecord(no, n)
  {
  }

  lemma MoreIsThere(net: set<Msg>, m: Msg, a: int)
    requires AckThere(net, a)
    ensures AckThere(net + {m}, a)
  {
    var m' :| m' in net && m'.Ack? && m'.ack == a;
    assert m' in net + {m};
  }

  lemma ThereNow(net: set<Msg>, m: Msg)
    requires m.Ack?
    ensures AckThere(net + {m}, m.ack)
  {
    assert m in net + {m};
  }

  lemma {:induction false} RunKeepsAcksSaid(ws: seq<World>, steps: seq<Step>, mss: nat, size: nat, isStream: bool,
                                            i: nat)
    requires IsRun(ws, steps, mss, size, isStream) && mss > 0 && size >= 3 && i < |ws|
    ensures AcksSaid(ws[i])
  {
    if i > 0 {
      hide *;
      RunKeepsAcksSaid(ws, steps, mss, size, isStream, i - 1);
      RunKeepsInv(ws, steps, mss, size, isStream, i - 1);
      StepAt(ws, steps, mss, size, isStream, i - 1);
      StepKeepsAcksSaid(ws[i - 1], steps[i - 1], ws[i]);
    }
  }

  /** A sender that is stuck can be told to go on. */
  lemma Unstick(w: World) returns (w': World)
    requires Inv(w) && AcksSaid(w)
    ensures Leads(w, w') && w'.rcv == w.rcv && !Stuck(w')
  {
    hide Leads, ReceiverInv, StreamInv, MessageInv, MsgInv;
    if Stuck(w) {
      assert w.rcv.lastAckAck > 0;
      assert CanAcknowledge(w, w.rcv.lastAckAck) by {
        var m :| m in w.net && m.Ack? && m.ack == w.rcv.lastAckAck;
      }
      w' := TakeAck(w, w.rcv.lastAckAck);
      LeadsKeeps(w, w');
    } else {
      LeadsNowhere(w);
      w' := w;
    }
  }

  // ----- what is sent arrives

  /** Stream mode: from every moment of every run, steps of the ends and the network lead to a moment at which the
      other user has read every byte that has been sent. */
  lemma StreamArrives(ws: seq<World>, steps: seq<Step>, mss: nat, size: nat, t: nat) returns (w': World)
    requires IsRun(ws, steps, mss, size, true) && mss > 0 && size >= 3 && t < |ws|
    ensures Leads(ws[t], w') && w'.rcv.out == UserBytes(ws[t].snd.log)
  {
    hide Inv, AcksSaid, IsRun, Leads, AllRead;
    RunKeepsInv(ws, steps, mss, size, true, t);
    RunKeepsAcksSaid(ws, steps, mss, size, true, t);
    var w := ws[t];
    w' := Complete(w, 0);
    AllReadIsAllBytes(w');
  }

  lemma Complete(w: World, len: nat) returns (w': World)
    requires Inv(w) && AcksSaid(w) && CanRead(w)
    ensures Leads(w, w') && Later(w, w') && AllRead(w') && GotSince(w, w', len)
  {
    hide Inv, AcksSaid, CanRead, Leads, Stuck;
    var w1 := Unstick(w);
    LeadsKeeps(w, w1);
    CanReadLater(w, w1);
    w' := AllIsRead(w1, len);
    LeadsOn(w, w1, w');
    LeadsKeeps(w, w');
  }

  /** A delivery spans fewer packets than the receive buffer has slots. */
  ghost predicate ShortDeliveries(w: World) {
    forall i :: 0 <= i < |w.rcv.got| ==> w.rcv.got[i].last - w.rcv.got[i].first + 1 <= w.rcv.size - 1
  }

  lemma StepKeepsGot(w: World, step: Step, w': World)
    requires Next(w, step, w') && !step.UserReceivesMessage?
    ensures w'.rcv.got == w.rcv.got
  {
    hide ReadFrom, Readable, SkipTaken, OnNak, OnAck, PackPicked, PackNew, UserSend;
    SkipTakenMeaning(w.rcv);
  }

  lemma StepKeepsShortDeliveries(w: World, step: Step, w': World)
    requires Inv(w) && Next(w, step, w') && ShortDeliveries(w)
    ensures ShortDeliveries(w')
  {
    hide SenderInv, StreamInv, MessageInv, MsgInv, SkipTaken, Slice, Bytes, Truncated, LooksEmpty;
    StepKeepsSetup(w, step, w');
    if step.UserReceivesMessage? {
      SkipTakenMeaning(w.rcv);
      var r0 := SkipTaken(w.rcv);
      if w'.rcv != r0 {
        var p, q :| FirstDeliverable(r0, p, q) && w'.rcv == Take(r0, p, q, step.maxLen);
        assert q in r0.stored;
      }
    } else {
      StepKeepsGot(w, step, w');
    }
  }

  lemma {:induction false} PathKeepsShortDeliveries(w: World, steps: seq<Step>, w': World)
    requires Inv(w) && Path(w, steps, w') && ShortDeliveries(w)
    ensures ShortDeliveries(w')
    decreases |steps|
  {
    hide Inv, Next, ShortDeliveries;
    if steps != [] {
      var w1 :| Next(w, steps[0], w1) && Path(w1, steps[1..], w');
      StepKeepsInv(w, steps[0], w1);
      StepKeepsShortDeliveries(w, steps[0], w1);
      PathKeepsShortDeliveries(w1, steps[1..], w');
    }
  }

  lemma {:induction false} RunKeepsShortDeliveries(ws: seq<World>, steps: seq<Step>, mss: nat, size: nat,
                                                   isStream: bool, i: nat)
    requires IsRun(ws, steps, mss, size, isStream) && mss > 0 && size >= 3 && i < |ws|
    ensures ShortDeliveries(ws[i])
  {
    if i > 0 {
      hide *;
      RunKeepsShortDeliveries(ws, steps, mss, size, isStream, i - 1);
      RunKeepsInv(ws, steps, mss, size, isStream, i - 1);
      StepAt(ws, steps, mss, size, isStream, i - 1);
      StepKeepsShortDeliveries(ws[i - 1], steps[i - 1], ws[i]);
    }
  }

  /** Message mode: from a moment of a run, steps of the ends and the network lead to a moment at which every message
      has been delivered, if and only if no message is longer than the receive buffer can hold. */
  lemma MessagesArrive(ws: seq<World>, steps: seq<Step>, mss: nat, size: nat, t: nat)
    requires IsRun(ws, steps, mss, size, false) && mss > 0 && size >= 3 && t < |ws|
    ensures (exists w' :: Leads(ws[t], w') && AllDelivered(w')) <==> MessagesFit(ws[t].snd, size)
  {
    hide Inv, AcksSaid, IsRun, Leads, AllRead, AllDelivered, MessagesFit;
    RunKeepsInv(ws, steps, mss, size, false, t);
    RunKeepsAcksSaid(ws, steps, mss, size, false, t);
    RunKeepsShortDeliveries(ws, steps, mss, size, false, t);
    var w := ws[t];
    if MessagesFit(w.snd, size) {
      var w' := Complete(w, 0);
      AllReadIsAllDelivered(w');
      assert Leads(w, w') && AllDelivered(w');
    }
    forall w' | Leads(w, w') && AllDelivered(w') ensures MessagesFit(w.snd, size) {
      DeliveredMessagesFit(w, w');
    }
  }

  /** A message that fills as many packets as the receive buffer has slots never arrives. */
  lemma LongMessageNeverArrives(w: World, mss: nat, size: nat, data: seq<Byte>, w1: World)
    requires Init(w, mss, size, false) && mss > 0 && size >= 3 && |data| == size * mss
    requires Next(w, UserSends(data, true), w1)
    ensures !exists w' :: Leads(w1, w') && AllDelivered(w')
  {
    hide Leads, AllDelivered, Fragments;
    assert IsRun([w, w1], [UserSends(data, true)], mss, size, false);
    MessagesArrive([w, w1], [UserSends(data, true)], mss, size, 1);
    assert (size - 1) * mss < size * mss;
    assert w1.snd.log == [Message(data, w.snd.nextNo, true)];
    assert |w1.snd.log[0].data| > (size - 1) * w1.snd.mss;
  }

  lemma DeliveredMessagesFit(w: World, w': World)
    requires Inv(w) && ShortDeliveries(w) && Leads(w, w') && AllDelivered(w')
    ensures MessagesFit(w.snd, w.rcv.size)
  {
    hide Inv, Path, MsgStart, Truncated;
    var steps :| Path(w, steps, w');
    PathKeepsShortDeliveries(w, steps, w');
    SenderHasPayload(w);
    forall k | 0 <= k < |w.snd.log| ensures |w.snd.log[k].data| <= (w.rcv.size - 1) * w.snd.mss {
      assert IsDelivered(w', k);
      FewPacketsIsFewBytes(w.snd, k, w.rcv.size - 1);
    }
  }

  lemma SenderHasPayload(w: World)
    requires Inv(w)
    ensures w.snd.mss > 0 && w.rcv.size >= 3
  {
  }

  /** When they fit, what is still to be delivered can be delivered uncut, to a user who asks for it with a buffer that
      is large enough. */
  lemma MessagesArriveWhole(ws: seq<World>, steps: seq<Step>, mss: nat, size: nat, t: nat, len: nat)
    returns (w': World)
    requires IsRun(ws, steps, mss, size, false) && mss > 0 && size >= 3 && t < |ws|
    requires MessagesFit(ws[t].snd, size) && forall k :: 0 <= k < |ws[t].snd.log| ==> |ws[t].snd.log[k].data| <= len
    ensures Leads(ws[t], w') && AllDelivered(w') && w'.snd.mss > 0 && ws[t].rcv.got <= w'.rcv.got
    ensures forall i: nat, k: nat :: |ws[t].rcv.got| <= i < |w'.rcv.got| && DeliversMessage(w', i, k) ==>
              w'.rcv.got[i].data == w'.snd.log[k].data
  {
    hide Inv, AcksSaid, IsRun, Leads, AllRead, AllDelivered, MessagesFit, MsgStart;
    RunKeepsInv(ws, steps, mss, size, false, t);
    RunKeepsAcksSaid(ws, steps, mss, size, false, t);
    w' := Complete(ws[t], len);
    AllReadIsAllDelivered(w');
    SenderHasPayload(w');
  }

  // ----- when the network loses everything

  /** The sender is stuck and no full acknowledgement will reach it. */
  ghost predicate Dead(w: World) {
    Stuck(w) && forall m :: m in w.net ==> !m.Ack?
  }

  /** What is missing lies beyond everything that has been sent. */
  lemma StuckMissesNothing(w: World)
    requires Inv(w) && Stuck(w)
    ensures IsFirstMissing(w.rcv, w.snd.curr + 1)
    ensures w.rcv.start <= w.rcv.lastAck == w.rcv.lastAckAck == w.snd.curr + 1
    ensures forall e :: e in w.rcv.acks ==> e.ack <= w.rcv.lastAckAck
  {
    assert w.snd.curr + 1 !in w.rcv.stored;
  }

  lemma StepLeavesCurr(w: World, step: Step, w': World)
    requires Inv(w) && Next(w, step, w') && !step.PacksNew?
    ensures w'.snd.curr == w.snd.curr
  {
    hide SenderInv, ReceiverInv, AgreeInv, StreamInv, MessageInv, SkipTaken, ReadFrom, Readable, Deliverable, OnNak;
    if step.SenderGets? && step.toSender.Nak? {
      assert MsgInv(step.toSender, w.snd, w.rcv);
      NakKeepsInv(w.snd, w.rcv, step.toSender.items);
    }
  }

  /** Nothing the ends or the network do brings the sender to life again. */
  lemma StepKeepsDead(w: World, step: Step, w': World)
    requires Inv(w) && Next(w, step, w') && Dead(w) && !step.UserSends?
    ensures Dead(w')
  {
    hide Inv, Next, IsFirstMissing, Larger;
    StuckMissesNothing(w);
    StepKeepsLog(w, step, w');
    if step.PacksNew? {
      FirstTransmission(w, step.cwnd, w');
    } else {
      StepLeavesCurr(w, step, w');
      match step
      case SenderGets(m, due) =>
        if m.LightAck? {
          LightAckTaken(w, m.lightAck, due, w');
        } else {
          InNet(w, step, w');
          StepLeavesAcks(w, step, w');
        }
      case ReceiverGets(m, positive) =>
        if m.Ack2? {
          DeadKnowsAlready(w, m.ack2No, positive, w');
        } else {
          StepLeavesAcks(w, step, w');
        }
      case AckTimer(repeat) =>
        AckSent(w, repeat, w.snd.curr + 1, w');
      case _ =>
        StepLeavesAcks(w, step, w');
    }
  }

  lemma InNet(w: World, step: Step, w': World)
    requires Next(w, step, w') && step.SenderGets?
    ensures step.toSender in w.net
  {
  }

  lemma DeadKnowsAlready(w: World, no: int, positive: bool, w': World)
    requires Inv(w) && Next(w, ReceiverGets(Ack2(no), positive), w') && Stuck(w)
    ensures w'.snd == w.snd && w'.net == w.net && w'.rcv.lastAckAck == w.rcv.lastAckAck
  {
    hide Inv, Next;
    StuckMissesNothing(w);
    var i := FindAck(w.rcv.acks, no);
    Ack2Taken(w, no, positive, i, w');
  }

  lemma {:induction false} PathKeepsDead(w: World, steps: seq<Step>, w': World)
    requires Inv(w) && Path(w, steps, w') && Dead(w)
    ensures Dead(w')
    decreases |steps|
  {
    hide Inv, Next, Dead;
    if steps != [] {
      var w1 :| Next(w, steps[0], w1) && Path(w1, steps[1..], w');
      StepKeepsInv(w, steps[0], w1);
      StepKeepsDead(w, steps[0], w1);
      PathKeepsDead(w1, steps[1..], w');
    }
  }

  lemma DeadHasNotRead(w: World)
    requires Inv(w) && Dead(w)
    ensures w.rcv.isStream ==> w.rcv.out != UserBytes(w.snd.log)
    ensures !w.rcv.isStream ==> !AllDelivered(w)
  {
    hide Stream, MsgStart, Bytes, UserBytes, MsgInv, AllDelivered, IsFirstMissing;
    StuckMissesNothing(w);
    if w.rcv.isStream {
      DeadStream(w);
    } else {
      DeadMessages(w);
    }
  }

  lemma DeadStream(w: World)
    requires Inv(w) && w.rcv.isStream && w.rcv.start < |w.snd.frags|
    ensures w.rcv.out != UserBytes(w.snd.log)
  {
    hide Stream, UserBytes, MsgInv, ReceiverInv, AgreeInv;
    var (s, r) := (w.snd, w.rcv);
    StreamHasNoEmptyPacket(s, r.size, r.start);
    StreamCarriesBytes(s.log, s.mss);
    UptoNext(s.frags, r.start, r.notch);
    UptoIsPrefix(s.frags, r.start + 1, 0);
  }

  lemma DeadMessages(w: World)
    requires Inv(w) && !w.rcv.isStream && w.snd.curr + 1 < |w.snd.frags| && w.rcv.start <= w.snd.curr + 1
    requires forall n :: n in w.rcv.stored ==> n <= w.snd.curr
    ensures !AllDelivered(w)
  {
    hide Stream, MsgStart, Bytes, Truncated, MsgInv, StreamInv, ReceiverInv;
    var n := w.snd.curr + 1;
    var k := MsgOf(w.snd.log, w.snd.mss, n);
    if IsDelivered(w, k) {
      DeliveredIsRead(w, k, n);
    }
  }

  lemma DeliveredIsRead(w: World, k: nat, n: int)
    requires Inv(w) && !w.rcv.isStream && IsDelivered(w, k) && k < |w.snd.log| && InMessage(w.snd, k, n)
    ensures IsRead(w.rcv, n) && (n >= w.rcv.start ==> n in w.rcv.stored)
  {
    hide Stream, MsgStart, Bytes, Truncated, MsgInv, StreamInv, ReceiverInv;
    var i :| 0 <= i < |w.rcv.got| && DeliversMessage(w, i, k);
    assert Covers(w.rcv.got[i], n);
  }

  /** When no full acknowledgement is left on the network, what has been sent to a stream can still arrive if and only
      if the sender is not stuck. */
  lemma StreamArrivesAfterLoss(w: World)
    requires Inv(w) && w.rcv.isStream && forall m :: m in w.net ==> !m.Ack?
    ensures (exists w' :: Leads(w, w') && w'.rcv.out == UserBytes(w.snd.log)) <==> !Stuck(w)
  {
    hide Inv, Path, Stuck, UserBytes, AllRead;
    if !Stuck(w) {
      var w' := AllIsRead(w, 0);
      AllReadIsAllBytes(w');
    } else {
      forall w' | Leads(w, w') ensures w'.rcv.out != UserBytes(w.snd.log) {
        var steps :| Path(w, steps, w');
        PathKeepsDead(w, steps, w');
        DeadHasNotRead(w');
      }
    }
  }

  /** The same of messages, unless one of them is too long. */
  lemma MessagesArriveAfterLoss(w: World)
    requires Inv(w) && ShortDeliveries(w) && !w.rcv.isStream && forall m :: m in w.net ==> !m.Ack?
    ensures (exists w' :: Leads(w, w') && AllDelivered(w')) <==> !Stuck(w) && MessagesFit(w.snd, w.rcv.size)
  {
    hide Inv, Path, Stuck, AllRead, MessagesFit, AllDelivered;
    if !Stuck(w) && MessagesFit(w.snd, w.rcv.size) {
      var w' := AllIsRead(w, 0);
      AllReadIsAllDelivered(w');
    }
    forall w' | Leads(w, w') && AllDelivered(w') ensures !Stuck(w) && MessagesFit(w.snd, w.rcv.size) {
      DeliveredMessagesFit(w, w');
      if Stuck(w) {
        var steps :| Path(w, steps, w');
        PathKeepsDead(w, steps, w');
        DeadHasNotRead(w');
      }
    }
  }

  // ----- early in a run

  /** The sender has been told `a`, and when nothing later, the window that came with it. */
  ghost predicate KnownTo(s: Snd, a: int) {
    a < s.lastAck || (a == s.lastAck && s.window >= 2)
  }

  /** This acknowledgement has been sent. */
  ghost predicate WasSent(net: set<Msg>, no: int, a: int) {
    exists m :: m in net && m.Ack? && m.ackNo == no && m.ack == a
  }

  ghost predicate NumbersDiffer(net: set<Msg>, no: int) {
    && (forall m :: m in net && m.Ack? ==> 1 <= m.ackNo <= no)
    && (forall m, m' :: m in net && m' in net && m.Ack? && m'.Ack? && m.ackNo == m'.ackNo ==> m.ack == m'.ack)
  }

  /** The number `no` has been answered: the sender knows what was acknowledged under it. */
  ghost predicate Answered(w: World, no: int) {
    no <= w.rcv.ackNo && forall m :: m in w.net && m.Ack? && m.ackNo == no ==> KnownTo(w.snd, m.ack)
  }

  /** As long as the numbers of acknowledgements have not come round, they tell them apart, and what the receiver takes
      the sender to know the sender knows. */
  ghost predicate AcksKnown(w: World) {
    && NumbersDiffer(w.net, w.rcv.ackNo)
    && (forall e :: e in w.rcv.acks ==> WasSent(w.net, e.ackNo, e.ack))
    && (forall m :: m in w.net && m.Ack2? ==> Answered(w, m.ack2No))
    && KnownTo(w.snd, w.rcv.lastAckAck)
  }

  /** What the sender has been told it knows. */
  ghost predicate StillKnows(s: Snd, s': Snd) {
    forall a :: KnownTo(s, a) ==> KnownTo(s', a)
  }

  /** Nothing is acknowledged or answered that has not been before, and the sender forgets nothing. */
  lemma AcksStillKnown(w: World, w': World)
    requires AcksKnown(w) && StillKnows(w.snd, w'.snd) && w.net <= w'.net
    requires forall m :: m in w'.net && (m.Ack? || m.Ack2?) ==> m in w.net
    requires w'.rcv.ackNo == w.rcv.ackNo && w'.rcv.acks == w.rcv.acks && w'.rcv.lastAckAck == w.rcv.lastAckAck
    ensures AcksKnown(w')
  {
    hide KnownTo;
    forall no, a | WasSent(w.net, no, a) ensures WasSent(w'.net, no, a) {
    }
    forall no | Answered(w, no) ensures Answered(w', no) {
    }
  }

  lemma AckIsKnown(w: World, m: Msg, due: bool, w': World)
    requires Inv(w) && Next(w, SenderGets(m, due), w') && m.Ack? && AcksKnown(w) && AcksSaid(w)
    ensures AcksKnown(w')
  {
    hide Inv, Next, KnownTo, MustAnswer;
    InNet(w, SenderGets(m, due), w');
    AckTaken(w, m.ackNo, m.ack, m.window, due, w');
    SenderLearns(w.snd, m.ack, m.window, w'.snd);
    AcksStillKnown(w, World(w'.snd, w.rcv, w.net));
    forall no, a | WasSent(w.net, no, a) ensures WasSent(w'.net, no, a) {
    }
    forall no | Answered(World(w'.snd, w.rcv, w.net), no) ensures Answered(w', no) {
    }
    assert Answered(w', m.ackNo);
  }

  lemma SenderLearns(s: Snd, ack: int, window: int, s': Snd)
    requires TakesOver(s, ack, window, s') && window >= 2
    ensures StillKnows(s, s') && KnownTo(s', ack)
  {
  }

  lemma LightAckIsKnown(w: World, m: Msg, due: bool, w': World)
    requires Inv(w) && Next(w, SenderGets(m, due), w') && m.LightAck? && AcksKnown(w)
    ensures AcksKnown(w')
  {
    hide Inv, Next, Answered, WasSent, NumbersDiffer;
    LightAckTaken(w, m.lightAck, due, w');
    AcksStillKnown(w, w');
  }

  lemma Ack2IsKnown(w: World, no: int, positive: bool, w': World)
    requires Inv(w) && Next(w, ReceiverGets(Ack2(no), positive), w') && AcksKnown(w)
    ensures AcksKnown(w')
  {
    hide Inv, KnownTo;
    var i := FindAck(w.rcv.acks, no);
    Ack2Taken(w, no, positive, i, w');
    assert Answered(w, no);
    if i < |w.rcv.acks| {
      assert WasSent(w.net, no, w.rcv.acks[i].ack);
    }
    forall n | Answered(w, n) ensures Answered(w', n) {
    }
  }

  lemma AckTimerIsKnown(w: World, repeat: bool, w': World)
    requires Inv(w) && Next(w, AckTimer(repeat), w') && AcksKnown(w) && 0 <= w.rcv.ackNo < 0x7FFF_FFFF
    ensures AcksKnown(w') && w'.rcv.ackNo <= w.rcv.ackNo + 1 && 0 <= w'.rcv.ackNo
  {
    hide Inv, Next, IsFirstMissing, AckGoesOut, AcksKnown, KnownTo, RoomLeft, Larger;
    var n := FirstMissing(w);
    AckSent(w, repeat, n, w');
    if AckIsDue(w.rcv, repeat, w'.rcv) {
      NewAckIsKnown(w, w', n, Larger(2, RoomLeft(w'.rcv)));
    } else {
      AcksStillKnown(w, w');
    }
  }

  lemma NewAckIsKnown(w: World, w': World, n: int, window: int)
    requires AcksKnown(w) && w'.snd == w.snd && AckGoesOut(w, w', w.rcv.ackNo + 1, n, window) && w.rcv.ackNo >= 0
    ensures AcksKnown(w') && w'.rcv.ackNo == w.rcv.ackNo + 1
  {
    hide KnownTo, WasSent, Answered, NumbersDiffer, AckGoesOut;
    var m := Ack(w.rcv.ackNo + 1, n, window);
    NewRecord(w, w', m.ackNo, n, window);
    SentNow(w.net, m);
    NextNumberDiffers(w.net, w.rcv.ackNo, m);
    forall e | e in w'.rcv.acks ensures WasSent(w'.net, e.ackNo, e.ack) {
      if e in w.rcv.acks {
        SentBefore(w.net, m, e.ackNo, e.ack);
      }
    }
    forall m2 | m2 in w'.net && m2.Ack2? ensures Answered(w', m2.ack2No) {
      AnsweredBefore(w, m, m2.ack2No, w');
    }
  }

  lemma SentNow(net: set<Msg>, m: Msg)
    requires m.Ack?
    ensures WasSent(net + {m}, m.ackNo, m.ack)
  {
    assert m in net + {m};
  }

  lemma SentBefore(net: set<Msg>, m: Msg, no: int, a: int)
    requires WasSent(net, no, a)
    ensures WasSent(net + {m}, no, a)
  {
    var m' :| m' in net && m'.Ack? && m'.ackNo == no && m'.ack == a;
    assert m' in net + {m};
  }

  lemma NextNumberDiffers(net: set<Msg>, no: int, m: Msg)
    requires NumbersDiffer(net, no) && m.Ack? && m.ackNo == no + 1 && no >= 0
    ensures NumbersDiffer(net + {m}, no + 1)
  {
  }

  lemma AnsweredBefore(w: World, m: Msg, no: int, w': World)
    requires Answered(w, no) && w'.snd == w.snd && w'.net == w.net + {m}
    requires m.Ack? && w'.rcv.ackNo == m.ackNo == w.rcv.ackNo + 1
    ensures Answered(w', no)
  {
  }

  lemma StepKeepsAcksKnown(w: World, step: Step, w': World)
    requires Inv(w) && Next(w, step, w') && AcksSaid(w) && AcksKnown(w) && 0 <= w.rcv.ackNo < 0x7FFF_FFFF
    ensures AcksKnown(w') && 0 <= w'.rcv.ackNo <= w.rcv.ackNo + 1
  {
    hide Inv, Next, AcksKnown, AcksSaid;
    if step.SenderGets? && step.toSender.Ack? {
      AckIsKnown(w, step.toSender, step.due, w');
      AckTaken(w, step.toSender.ackNo, step.toSender.ack, step.toSender.window, step.due, w');
    } else if step.SenderGets? && step.toSender.LightAck? {
      LightAckIsKnown(w, step.toSender, step.due, w');
      LightAckTaken(w, step.toSender.lightAck, step.due, w');
    } else if step.ReceiverGets? && step.toReceiver.Ack2? {
      Ack2IsKnown(w, step.toReceiver.ack2No, step.positive, w');
      Ack2Taken(w, step.toReceiver.ack2No, step.positive, FindAck(w.rcv.acks, step.toReceiver.ack2No), w');
    } else if step.AckTimer? {
      AckTimerIsKnown(w, step.repeat, w');
    } else {
      StepLeavesAcks(w, step, w');
      AcksStillKnown(w, w');
    }
  }

  lemma {:induction false} RunKeepsAcksKnown(ws: seq<World>, steps: seq<Step>, mss: nat, size: nat, isStream: bool,
                                             i: nat)
    requires IsRun(ws, steps, mss, size, isStream) && mss > 0 && size >= 3 && i < |ws| && i < 0x8000_0000
    ensures AcksKnown(ws[i]) && 0 <= ws[i].rcv.ackNo <= i
  {
    if i > 0 {
      hide Inv, IsRun, Next, AcksKnown, AcksSaid;
      RunKeepsAcksKnown(ws, steps, mss, size, isStream, i - 1);
      RunKeepsAcksSaid(ws, steps, mss, size, isStream, i - 1);
      RunKeepsInv(ws, steps, mss, size, isStream, i - 1);
      StepAt(ws, steps, mss, size, isStream, i - 1);
      StepKeepsAcksKnown(ws[i - 1], steps[i - 1], ws[i]);
    }
  }

  lemma KnownIsNotStuck(w: World)
    requires Inv(w) && KnownTo(w.snd, w.rcv.lastAckAck)
    ensures !Stuck(w)
  {
  }

  /** The world after the network has lost everything. */
  ghost function Lost(w: World): World {
    w.(net := {})
  }

  /** In the first 2^31 steps of a run, the network may lose everything: what has been sent to a stream can still
      arrive, */
  lemma StreamSurvivesLoss(ws: seq<World>, steps: seq<Step>, mss: nat, size: nat, t: nat) returns (w': World)
    requires IsRun(ws, steps, mss, size, true) && mss > 0 && size >= 3 && t < |ws| && t < 0x8000_0000
    ensures Leads(Lost(ws[t]), w') && w'.rcv.out == UserBytes(ws[t].snd.log)
  {
    hide IsRun, Leads, AllRead, StreamInv, MessageInv, UserBytes;
    RunKeepsInv(ws, steps, mss, size, true, t);
    RunKeepsAcksKnown(ws, steps, mss, size, true, t);
    KnownIsNotStuck(ws[t]);
    w' := AllIsRead(Lost(ws[t]), 0);
    LeadsKeeps(Lost(ws[t]), w');
    AllReadIsAllBytes(w');
  }

  /** and so can messages, if and only if they fit. */
  lemma MessagesSurviveLoss(ws: seq<World>, steps: seq<Step>, mss: nat, size: nat, t: nat)
    requires IsRun(ws, steps, mss, size, false) && mss > 0 && size >= 3 && t < |ws| && t < 0x8000_0000
    ensures (exists w' :: Leads(Lost(ws[t]), w') && AllDelivered(w')) <==> MessagesFit(ws[t].snd, size)
  {
    hide IsRun, Leads, AllDelivered, StreamInv, MessageInv, MessagesFit;
    RunKeepsInv(ws, steps, mss, size, false, t);
    RunKeepsShortDeliveries(ws, steps, mss, size, false, t);
    RunKeepsAcksKnown(ws, steps, mss, size, false, t);
    KnownIsNotStuck(ws[t]);
    MessagesArriveAfterLoss(Lost(ws[t]));
  }

  // ----- as a run

  /** Where the steps lead, a run goes. */
  lemma {:induction false} PathIsRun(ws: seq<World>, steps: seq<Step>, path: seq<Step>, w': World, mss: nat, size: nat,
                                     isStream: bool)
    returns (more: seq<World>)
    requires IsRun(ws, steps, mss, size, isStream) && Path(ws[|ws| - 1], path, w')
    ensures IsRun(ws + more, steps + path, mss, size, isStream) && (ws + more)[|ws + more| - 1] == w'
    decreases |path|
  {
    hide Next, Init;
    if path == [] {
      more := [];
      assert ws + more == ws && steps + path == steps;
    } else {
      var w1 :| Next(ws[|ws| - 1], path[0], w1) && Path(w1, path[1..], w');
      var ws1, steps1 := ws + [w1], steps + [path[0]];
      forall i | 0 <= i < |steps1| ensures Next(ws1[i], steps1[i], ws1[i + 1]) {
        assert i < |steps| ==> Next(ws[i], steps[i], ws[i + 1]);
      }
      var rest := PathIsRun(ws1, steps1, path[1..], w', mss, size, isStream);
      more := [w1] + rest;
      assert ws1 + rest == ws + more && steps1 + path[1..] == steps + path;
    }
  }
}
