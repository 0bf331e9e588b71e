/** Any sequence of calls of a connection.  What happens is a run of the protocol as long as the network and the
    clocks are timely; while fewer than half the sequence space of packets have been sent, they always are. */
module Drives {
  import opened SeqNo
  import opened Packets
  import opened SenderSpec
  import opened ReceiverSpec
  import opened Protocol
  import opened Runs
  import opened Ends
  import opened Epolls
  import opened Senders
  import opened Receivers
  import opened Sockets
  import opened Connections

  /** What can happen to a connection: the calls of its two users, its timers, and the network, which may
      deliver any datagram at any time, as often as it likes. */
  datatype Event =
    | Write(data: seq<Byte>)
    | WriteMsg(msg: seq<Byte>, inOrder: bool)
    | PickLoss
    | Resend
    | SendNew(cwnd: int)
    | Expiry
    | Arrival(d: Datagram, due: bool, now: int)
    | AckDue(repeat: bool, time: int)
    | ManyArrived
    | Read(len: nat)
    | ReadMsg(len: nat)
    | WatchReader(eid: int, ev: Events)

  /** The step of the protocol an event may be.  (Reading a message is two steps.) */
  ghost predicate MayBe(e: Event, step: Step, isn: int) {
    match e
    case Write(data) => step.UserSends? && !step.inOrder && step.data <= data
    case WriteMsg(data, inOrder) => step == UserSends(data, inOrder)
    case PickLoss => step == PicksLost
    case Resend => step == PacksPicked
    case SendNew(cwnd) => step == PacksNew(cwnd)
    case Expiry => step == Expires
    case Arrival(d, due, _) =>
      || (step.SenderGets? && OnWire(step.toSender, isn) == d)
      || (step.ReceiverGets? && OnWire(step.toReceiver, isn) == d)
    case AckDue(repeat, _) => step == AckTimer(repeat)
    case ManyArrived => step == LightAckDue
    case Read(len) => step.UserReceives? && step.len <= len
    case ReadMsg(_) => false
    case WatchReader(_, _) => step == UserAsksForMessage
  }

  ghost predicate ReadsMsg(w: World, len: nat, w1: World, w': World) {
    Next(w, UserReceivesMessage(len), w1) && Next(w1, UserAsksForMessage, w')
  }

  ghost predicate ComesTo(w: World, e: Event, w': World, isn: int) {
    || w' == w
    || (exists step :: MayBe(e, step, isn) && Next(w, step, w'))
    || (e.ReadMsg? && exists len, w1 :: ReadsMsg(w, len, w1, w'))
  }

  /** What is assumed of the network and the clocks when an event happens. */
  ghost predicate Timely(w: World, e: Event, isn: int) {
    match e
    case Resend => w.snd.picked.Some? ==> Recent(w.snd.picked.value, w.snd.curr)
    case Arrival(d, _, _) =>
      && (d in Carried(w.net, isn) ==> exists m :: StandsFor(d, m, w, isn))
      && (d.Ack2Packet? ==> Ack2Lag(w.rcv) < SEQ_NO_TH)
    case AckDue(_, _) => Ack2Lag(w.rcv) < SEQ_NO_TH
    case ManyArrived => Ack2Lag(w.rcv) < SEQ_NO_TH
    case _ => true
  }

  /** Whatever comes of the events, all of them are timely. */
  ghost predicate AllTimely(w: World, events: seq<Event>, isn: int)
    decreases |events|
  {
    events != [] ==>
      && Timely(w, events[0], isn)
      && forall w' :: ComesTo(w, events[0], w', isn) ==> AllTimely(w', events[1..], isn)
  }

  // ----- short runs need no assumption

  lemma EventKeepsInv(w: World, e: Event, w': World, isn: int)
    requires Inv(w) && ComesTo(w, e, w', isn)
    ensures Inv(w') && w'.snd.curr <= w.snd.curr + 1
  {
    hide Inv, Next;
    if w' != w {
      if step :| MayBe(e, step, isn) && Next(w, step, w') {
        StepKeepsInv(w, step, w');
        OneMoreSent(w, step, w');
      } else {
        var len, w1 :| ReadsMsg(w, len, w1, w');
        StepKeepsInv(w, UserReceivesMessage(len), w1);
        StepKeepsInv(w1, UserAsksForMessage, w');
        OnlyReads(w, len, w1, w');
      }
    }
  }

  lemma OneMoreSent(w: World, step: Step, w': World)
    requires Next(w, step, w')
    ensures w'.snd.curr <= w.snd.curr + 1
  {
    hide OnNak, RecvMsg, SkipTaken, Recv, OnData, SendAck, OnAck2;
    if step.SenderGets? && step.toSender.Nak? {
      NakLeavesCurr(w.snd, step.toSender.items);
    }
  }

  lemma OnlyReads(w: World, len: nat, w1: World, w': World)
    requires ReadsMsg(w, len, w1, w')
    ensures w'.snd == w.snd
  {
    hide RecvMsg, SkipTaken;
  }

  lemma EarlyIsTimely(w: World, e: Event, isn: int)
    requires Inv(w) && w.snd.curr + 1 < SEQ_NO_TH
    ensures Timely(w, e, isn)
  {
    hide StreamInv, MessageInv;
    if e.Arrival? && e.d in Carried(w.net, isn) {
      var m :| m in w.net && OnWire(m, isn) == e.d;
      assert MsgInv(m, w.snd, w.rcv);
      if m.Nak? {
        forall i | 0 <= i < |m.items| ensures Recent(LowOf(m.items[i]), w.snd.curr) {
          assert ItemInv(m.items[i], w.rcv);
        }
      }
      assert StandsFor(e.d, m, w, isn);
    }
  }

  /** While fewer than half the sequence space of packets have been sent, nothing is assumed of the network. */
  lemma {:induction false} ShortRunsAreTimely(w: World, events: seq<Event>, isn: int)
    requires Inv(w) && w.snd.curr + |events| + 1 < SEQ_NO_TH
    ensures AllTimely(w, events, isn)
    decreases |events|
  {
    hide Inv, ComesTo, Timely;
    if events != [] {
      EarlyIsTimely(w, events[0], isn);
      forall w' | ComesTo(w, events[0], w', isn) ensures AllTimely(w', events[1..], isn) {
        EventKeepsInv(w, events[0], w', isn);
        ShortRunsAreTimely(w', events[1..], isn);
      }
    }
  }

  // ----- doing what an event says

  lemma TookIsNext(ws: seq<World>, steps: seq<Step>, w: World, step: Step, w': World,
                   mss: nat, size: nat, isStream: bool)
    requires RunTo(ws, steps, w, mss, size, isStream) && RunTo(ws + [w'], steps + [step], w', mss, size, isStream)
    ensures Next(w, step, w')
  {
    hide Next, Init;
    var (ws', steps') := (ws + [w'], steps + [step]);
    assert Next(ws'[|steps|], steps'[|steps|], ws'[|steps| + 1]);
  }

  lemma TookBothIsNext(ws: seq<World>, steps: seq<Step>, w: World, first: Step, second: Step, w1: World, w': World,
                       mss: nat, size: nat, isStream: bool)
    requires RunTo(ws, steps, w, mss, size, isStream)
    requires RunTo(ws + [w1, w'], steps + [first, second], w', mss, size, isStream)
    ensures Next(w, first, w1) && Next(w1, second, w')
  {
    hide Next, Init;
    var (ws', steps') := (ws + [w1, w'], steps + [first, second]);
    assert Next(ws'[|steps|], steps'[|steps|], ws'[|steps| + 1]);
    assert Next(ws'[|steps| + 1], steps'[|steps| + 1], ws'[|steps| + 2]);
  }

  /** An event at the sending end. */
  method DoAtSender(c: Connection, e: Event)
    requires c.Valid() && Timely(c.w, e, c.isn)
    requires e.Write? || e.WriteMsg? || e.PickLoss? || e.Resend? || e.SendNew? || e.Expiry?
    modifies c, c.a.Repr()
    ensures c.Valid() && c.Frames()
    ensures c.Stood() || exists step :: MayBe(e, step, c.isn) && c.Took(step)
  {
    hide Connection.Hosts, Connection.Frames, RunTo, Carried, UserBytes;
    match e
    case Write(data) => { var res, n := c.Send(data); }
    case WriteMsg(data, inOrder) => { var res := c.SendMsg(data, inOrder); }
    case PickLoss => { var some := c.TakeLost(); }
    case Resend => { var sent := c.PackLost(); }
    case SendNew(cwnd) => { var sent := c.PackNew(cwnd); }
    case Expiry => c.Expire();
  }

  /** A datagram arrives, if there is such a one. */
  method DoArrival(c: Connection, d: Datagram, due: bool, now: int)
    requires c.Valid() && Timely(c.w, Arrival(d, due, now), c.isn)
    modifies c, c.a.Repr(), c.b.Repr()
    ensures c.Valid() && c.Frames()
    ensures c.Stood() || exists step :: MayBe(Arrival(d, due, now), step, c.isn) && c.Took(step)
  {
    hide Connection.Hosts, Connection.Frames, RunTo, Carried, UserBytes;
    if d !in c.net {
      c.NothingHappened();
      return;
    }
    match d
    case DataPacket(seqno, frag) => {
      var sent; ghost var m;
      sent, m := c.GetData(seqno, frag);
    }
    case AckPacket(ackNo, ack, window) => {
      var sent; ghost var m;
      sent, m := c.GetAck(ackNo, ack, window, due);
    }
    case LightAckPacket(ack) => { ghost var m := c.GetLightAck(ack); }
    case NakPacket(words) => { ghost var m := c.GetNak(words); }
    case Ack2Packet(no) => { var rtt := c.GetAck2(no, now); }
  }

  /** An event at the receiving end. */
  method DoAtReceiver(c: Connection, e: Event, data: array<Byte>)
    requires c.Valid() && Timely(c.w, e, c.isn) && data !in c.a.Repr() + c.b.Repr()
    requires e.AckDue? || e.ManyArrived? || e.Read? || e.ReadMsg? || e.WatchReader?
    modifies c, c.b.Repr(), data
    ensures c.Valid() && c.Frames()
    ensures || c.Stood()
            || (exists step :: MayBe(e, step, c.isn) && c.Took(step))
            || (e.ReadMsg? && exists len :: c.TookBoth(UserReceivesMessage(len), UserAsksForMessage))
  {
    hide Connection.Hosts, RunTo, Carried, UserBytes;
    match e
    case AckDue(repeat, time) => { var sent := c.AckTimer(repeat, time); }
    case ManyArrived => { var sent := c.SendLightAck(); }
    case Read(len) => { var ok, n := c.Recv(data, if len <= data.Length then len else data.Length); }
    case ReadMsg(len) => { var ok, n, more := c.RecvMsg(data, if len <= data.Length then len else data.Length); }
    case WatchReader(eid, ev) => { var ok := c.Watch(eid, ev); }
  }

  /** A run that has gone on by what an event may be. */
  ghost predicate WentOn(ws: seq<World>, steps: seq<Step>, e: Event, ws': seq<World>, steps': seq<Step>, isn: int) {
    || (ws' == ws && steps' == steps)
    || (exists step, w' :: MayBe(e, step, isn) && ws' == ws + [w'] && steps' == steps + [step])
    || (e.ReadMsg? && exists len, w1, w' ::
          ws' == ws + [w1, w'] && steps' == steps + [UserReceivesMessage(len), UserAsksForMessage])
  }

  lemma EndsAt(ws: seq<World>, steps: seq<Step>, w: World, e: Event, ws': seq<World>, steps': seq<Step>, w': World,
                  isn: int, mss: nat, size: nat, isStream: bool)
    requires RunTo(ws, steps, w, mss, size, isStream) && RunTo(ws', steps', w', mss, size, isStream)
    requires WentOn(ws, steps, e, ws', steps', isn)
    ensures ComesTo(w, e, w', isn)
  {
    hide RunTo, MayBe, Next;
    if ws' == ws && steps' == steps {
      SameEnd(ws, steps, w, w', mss, size, isStream);
    } else if step, v :| MayBe(e, step, isn) && ws' == ws + [v] && steps' == steps + [step] {
      LastIs(ws', steps', w', mss, size, isStream);
      TookIsNext(ws, steps, w, step, w', mss, size, isStream);
    } else {
      var len, w1, v :| ws' == ws + [w1, v] && steps' == steps + [UserReceivesMessage(len), UserAsksForMessage];
      LastIs(ws', steps', w', mss, size, isStream);
      TookBothIsNext(ws, steps, w, UserReceivesMessage(len), UserAsksForMessage, w1, w', mss, size, isStream);
      assert ReadsMsg(w, len, w1, w');
    }
  }

  lemma LastIs(ws: seq<World>, steps: seq<Step>, w: World, mss: nat, size: nat, isStream: bool)
    requires RunTo(ws, steps, w, mss, size, isStream)
    ensures ws != [] && w == ws[|ws| - 1]
  {
  }

  lemma SameEnd(ws: seq<World>, steps: seq<Step>, w: World, w': World, mss: nat, size: nat, isStream: bool)
    requires RunTo(ws, steps, w, mss, size, isStream) && RunTo(ws, steps, w', mss, size, isStream)
    ensures w == w'
  {
  }

  /** One event.  Reads go to the buffer `data`. */
  method Do(c: Connection, e: Event, data: array<Byte>)
    requires c.Valid() && Timely(c.w, e, c.isn) && data !in c.a.Repr() + c.b.Repr()
    modifies c, c.a.Repr(), c.b.Repr(), data
    ensures c.Valid() && c.Frames() && ComesTo(old(c.w), e, c.w, c.isn)
  {
    hide Connection.Hosts, Connection.Frames, RunTo, Carried, UserBytes, Timely, ComesTo;
    Dispatch(c, e, data);
    EndsAt(old(c.ws), old(c.steps), old(c.w), e, c.ws, c.steps, c.w, c.isn, c.mss, c.size, c.isStream);
  }

  method Dispatch(c: Connection, e: Event, data: array<Byte>)
    requires c.Valid() && Timely(c.w, e, c.isn) && data !in c.a.Repr() + c.b.Repr()
    modifies c, c.a.Repr(), c.b.Repr(), data
    ensures c.Valid() && c.Frames() && WentOn(old(c.ws), old(c.steps), e, c.ws, c.steps, c.isn)
  {
    hide Connection.Valid, Connection.Frames, Timely, MayBe, WentOn;
    ghost var (ws, steps) := (c.ws, c.steps);
    if e.Arrival? {
      DoArrival(c, e.d, e.due, e.now);
    } else if e.AckDue? || e.ManyArrived? || e.Read? || e.ReadMsg? || e.WatchReader? {
      DoAtReceiver(c, e, data);
    } else {
      DoAtSender(c, e);
    }
    if c.Stood() {
      WentNowhere(ws, steps, e, c.isn);
    } else if step :| MayBe(e, step, c.isn) && c.Took(step) {
      WentByStep(ws, steps, e, step, c.w, c.isn);
    } else {
      ghost var len :| c.TookBoth(UserReceivesMessage(len), UserAsksForMessage);
      WentByTwo(ws, steps, e, len, c.ws[|c.ws| - 2], c.w, c.isn);
    }
  }

  lemma WentNowhere(ws: seq<World>, steps: seq<Step>, e: Event, isn: int)
    ensures WentOn(ws, steps, e, ws, steps, isn)
  {
  }

  lemma WentByStep(ws: seq<World>, steps: seq<Step>, e: Event, step: Step, w: World, isn: int)
    requires MayBe(e, step, isn)
    ensures WentOn(ws, steps, e, ws + [w], steps + [step], isn)
  {
  }

  lemma WentByTwo(ws: seq<World>, steps: seq<Step>, e: Event, len: nat, w1: World, w: World, isn: int)
    requires e.ReadMsg?
    ensures WentOn(ws, steps, e, ws + [w1, w], steps + [UserReceivesMessage(len), UserAsksForMessage], isn)
  {
  }

  // ----- any sequence of events

  /** When all messages are sent in order, the messages delivered are the first ones sent, cut to the user's
      buffer, in their order. */
  ghost predicate MessagesArrived(w: World) {
    (forall k :: 0 <= k < |w.snd.log| ==> w.snd.log[k].inOrder) ==>
      && |w.rcv.got| <= |w.snd.log|
      && forall i :: 0 <= i < |w.rcv.got| ==> w.rcv.got[i].data == Truncated(w.snd.log[i].data, w.rcv.got[i].len)
  }

  lemma AllArrived(c: Connection)
    requires c.Valid()
    ensures c.isStream ==> c.returned <= c.accepted
    ensures !c.isStream ==> MessagesArrived(c.w)
    ensures !c.a.sender.broken
  {
    hide Connection.Valid, Truncated;
    c.NeverBroken();
    if c.isStream {
      c.BytesArrive();
    } else if forall k :: 0 <= k < |c.w.snd.log| ==> c.w.snd.log[k].inOrder {
      if c.w.rcv.got != [] {
        c.MessagesArrive(|c.w.rcv.got| - 1);
      }
      forall i | 0 <= i < |c.w.rcv.got|
        ensures i < |c.w.snd.log| && c.w.rcv.got[i].data == Truncated(c.w.snd.log[i].data, c.w.rcv.got[i].len)
      {
        c.MessagesArrive(i);
      }
    }
  }

  method DoNext(c: Connection, e: Event, data: array<Byte>)
    requires c.Valid() && Timely(c.w, e, c.isn) && data !in c.a.Repr() + c.b.Repr()
    modifies c, c.a.Repr(), c.b.Repr(), data
    ensures c.Valid() && ComesTo(old(c.w), e, c.w, c.isn) && data !in c.a.Repr() + c.b.Repr()
    ensures fresh(c.a.Repr() - old(c.a.Repr())) && fresh(c.b.Repr() - old(c.b.Repr()))
  {
    hide Connection.Valid, ComesTo, Timely, Socket.Repr, Socket.SameInterest;
    c.a.ReprIsThere();
    c.b.ReprIsThere();
    Do(c, e, data);
    c.a.ReprIsThere();
    c.b.ReprIsThere();
  }

  /** Whatever happens, in whatever order: what comes out at one end is what went in at the other. */
  method Drive(c: Connection, events: seq<Event>, data: array<Byte>)
    requires c.Valid() && AllTimely(c.w, events, c.isn) && data !in c.a.Repr() + c.b.Repr()
    modifies c, c.a.Repr(), c.b.Repr(), data
    ensures c.Valid() && fresh(c.a.Repr() - old(c.a.Repr())) && fresh(c.b.Repr() - old(c.b.Repr()))
    ensures c.isStream ==> c.returned <= c.accepted
    ensures !c.isStream ==> MessagesArrived(c.w)
    ensures !c.a.sender.broken
  {
    hide Connection.Valid, ComesTo, Timely, MessagesArrived, Socket.Repr;
    c.a.ReprIsThere();
    c.b.ReprIsThere();
    for i := 0 to |events|
      invariant c.Valid() && AllTimely(c.w, events[i..], c.isn) && data !in c.a.Repr() + c.b.Repr()
      invariant fresh(c.a.Repr() - old(c.a.Repr())) && fresh(c.b.Repr() - old(c.b.Repr()))
    {
      assert events[i..][0] == events[i] && events[i..][1..] == events[i + 1..];
      ghost var (a0, b0) := (c.a.Repr(), c.b.Repr());
      label before:
      DoNext(c, events[i], data);
      ghost var (newA, newB) := (c.a.Repr() - a0, c.b.Repr() - b0);
      assert fresh@before(newA) && fresh@before(newB);
      ghost var (oldA, oldB) := (a0 - old(c.a.Repr()), b0 - old(c.b.Repr()));
      forall o: object | o in c.a.Repr() && o !in old(c.a.Repr()) ensures fresh(o) {
        assert o in newA || o in oldA;
      }
      forall o: object | o in c.b.Repr() && o !in old(c.b.Repr()) ensures fresh(o) {
        assert o in newB || o in oldB;
      }
    }
    AllArrived(c);
  }

  /** While fewer than half the sequence space of packets have been sent, the network may do what it likes. */
  method DriveEarly(c: Connection, events: seq<Event>, data: array<Byte>)
    requires c.Valid() && c.w.snd.curr + |events| + 1 < SEQ_NO_TH && data !in c.a.Repr() + c.b.Repr()
    modifies c, c.a.Repr(), c.b.Repr(), data
    ensures c.Valid() && fresh(c.a.Repr() - old(c.a.Repr())) && fresh(c.b.Repr() - old(c.b.Repr()))
    ensures c.isStream ==> c.returned <= c.accepted
    ensures !c.isStream ==> MessagesArrived(c.w)
    ensures !c.a.sender.broken
  {
    hide Connection.Valid, AllTimely, MessagesArrived, Inv;
    c.SenderReady();
    ShortRunsAreTimely(c.w, events, c.isn);
    Drive(c, events, data);
  }

  /** Two sockets carry two connections, one each way.  What happens to one of them does not concern the other. */
  method DoBeside(c: Connection, other: Connection, e: Event, data: array<Byte>)
    requires c.Valid() && other.Valid() && other != c && other.a == c.b && other.b == c.a
    requires Timely(c.w, e, c.isn) && data !in c.a.Repr() + c.b.Repr()
    modifies c, c.a.Repr(), c.b.Repr(), data
    ensures c.Valid() && other.Valid() && ComesTo(old(c.w), e, c.w, c.isn)
    ensures data !in c.a.Repr() + c.b.Repr()
    ensures fresh(c.a.Repr() - old(c.a.Repr())) && fresh(c.b.Repr() - old(c.b.Repr()))
  {
    hide Socket.Valid, Socket.Repr, RunTo, Carried, UserBytes, ComesTo, Timely, Socket.SameInterest;
    c.a.ReprIsThere();
    c.b.ReprIsThere();
    Do(c, e, data);
    c.a.ReprIsThere();
    c.b.ReprIsThere();
  }
}
