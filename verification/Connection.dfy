/** A connection as the program runs it: two sockets that exchange datagrams with wrapped sequence numbers
    over a network that loses, duplicates and reorders them.  Every step of the program is a step of
    `Protocol`, so what is proved of runs holds of the program. */
module Connections {
  import opened SeqNo
  import opened Packets
  import opened SenderSpec
  import opened ReceiverSpec
  import opened NakCoding
  import opened RcvBuffers
  import opened Senders
  import opened Receivers
  import opened Readiness
  import SndLossLists
  import SndBuffers
  import opened Epolls
  import opened Sockets
  import opened Protocol
  import Effects
  import Recovery
  import Liveness
  import opened Runs
  import opened Ends

  /** What is on the network. */
  datatype Datagram =
    | DataPacket(seqno: int, frag: Frag)
    | AckPacket(ackNo: int, ack: int, window: int)
    | LightAckPacket(ack: int)
    | Ack2Packet(no: int)
    | NakPacket(words: seq<int>)

  ghost function OnWire(m: Msg, isn: int): Datagram {
    match m
    case Data(n, f) => DataPacket(Wire(isn + n), f)
    case Ack(no, a, window) => AckPacket(no, Wire(isn + a), window)
    case LightAck(a) => LightAckPacket(Wire(isn + a))
    case Ack2(no) => Ack2Packet(no)
    case Nak(items) => NakPacket(NakCoding.Encode(AllAbsolute(items, isn)))
  }

  ghost function Carried(ms: set<Msg>, isn: int): set<Datagram> {
    set m | m in ms :: OnWire(m, isn)
  }

  /** A message that is not older than the ends can tell. */
  ghost predicate RecentMsg(m: Msg, w: World) {
    match m
    case Data(n, _) => Recent(n, w.rcv.curr)
    case Ack(_, a, _) => Recent(a, w.snd.curr)
    case LightAck(a) => Recent(a, w.snd.curr)
    case Ack2(_) => true
    case Nak(items) => forall i :: 0 <= i < |items| ==> Recent(LowOf(items[i]), w.snd.curr)
  }

  ghost predicate StandsFor(d: Datagram, m: Msg, w: World, isn: int) {
    m in w.net && OnWire(m, isn) == d && RecentMsg(m, w)
  }

  /** A run that has come to `w`. */
  ghost predicate RunTo(ws: seq<World>, steps: seq<Step>, w: World, mss: nat, size: nat, isStream: bool) {
    mss > 0 && size >= 3 && IsRun(ws, steps, mss, size, isStream) && w == ws[|ws| - 1]
  }

  lemma RunGoesOn(ws: seq<World>, steps: seq<Step>, w: World, step: Step, w': World, mss: nat, size: nat,
                  isStream: bool)
    requires RunTo(ws, steps, w, mss, size, isStream) && Next(w, step, w')
    ensures RunTo(ws + [w'], steps + [step], w', mss, size, isStream)
  {
    hide Next, Init;
    var ws', steps' := ws + [w'], steps + [step];
    forall i | 0 <= i < |steps'| ensures Next(ws'[i], steps'[i], ws'[i + 1]) {
      assert i < |steps| ==> Next(ws[i], steps[i], ws[i + 1]);
    }
  }

  function PickedOnWire(picked: Option<int>, isn: int): Option<int> {
    if picked.None? then None else Some(Wire(isn + picked.value))
  }

  lemma RunIsSafe(ws: seq<World>, steps: seq<Step>, w: World, mss: nat, size: nat, isStream: bool)
    requires RunTo(ws, steps, w, mss, size, isStream)
    ensures Inv(w) && w.rcv.size == size && w.rcv.isStream == isStream
  {
    RunKeepsInv(ws, steps, mss, size, isStream, |ws| - 1);
  }

  class Connection {
    const a: Socket            // sends
    const b: Socket            // receives
    const isn: int
    const mss: nat
    const size: nat
    const isStream: bool
    var net: set<Datagram>
    var picked: Option<int>    // the lost number taken by the first half of `packData`

    ghost var w: World
    ghost var ws: seq<World>
    ghost var steps: seq<Step>
    ghost var accepted: seq<Byte>   // everything `send` and `sendmsg` have accepted at one end
    ghost var returned: seq<Byte>   // everything `recv` has returned at the other

    /** The two ends, each of them whole and in agreement with its polls. */
    ghost predicate Hosts()
      reads *
    {
      && a.Valid() && b.Valid() && a.Repr() !! b.Repr() && this !in a.Repr() && this !in b.Repr()
      && a.isStream == b.isStream == isStream
      && a.sender.isn == b.receiver.isn == isn && a.sender.size == b.receiver.size == size < SEQ_NO_TH
    }

    ghost predicate Valid()
      reads *
    {
      && Hosts() && w.snd == a.sender.s && w.rcv == b.receiver.r
      && RunTo(ws, steps, w, mss, size, isStream) && net == Carried(w.net, isn)
      && picked == PickedOnWire(w.snd.picked, isn)
      && accepted == UserBytes(w.snd.log) && returned == w.rcv.out
    }

    /** Two sockets that have just been connected to each other. */
    constructor (a: Socket, b: Socket)
      requires a.Valid() && b.Valid() && a.Repr() !! b.Repr() && a.isStream == b.isStream
      requires a.sender.isn == b.receiver.isn && 3 <= a.sender.size == b.receiver.size < SEQ_NO_TH
      requires a.sender.s == InitSnd(a.sender.buffer.mss, a.sender.size, a.sender.isn) && a.sender.buffer.mss > 0
      requires b.receiver.r == InitRcv(b.receiver.size, b.isStream)
      ensures Valid() && this.a == a && this.b == b && steps == [] && accepted == [] && returned == []
    {
      hide Socket.Valid, Socket.Repr;
      this.a, this.b, isn, mss := a, b, a.sender.isn, a.sender.buffer.mss;
      size, isStream := a.sender.size, a.isStream;
      net, picked := {}, None;
      w := World(a.sender.s, b.receiver.r, {});
      ws, steps, accepted, returned := [World(a.sender.s, b.receiver.r, {})], [], [], [];
      a.ReprIsThere();
      b.ReprIsThere();
      new;
      a.Unaffected();
      b.Unaffected();
    }

    /** The program has taken this step, */
    twostate predicate Took(step: Step)
      reads this
    {
      steps == old(steps) + [step] && ws == old(ws) + [w]
    }

    /** these two, */
    twostate predicate TookBoth(first: Step, second: Step)
      reads this
    {
      steps == old(steps) + [first, second] && |ws| > 1 && ws == old(ws) + [ws[|ws| - 2], w]
    }

    /** or none. */
    twostate predicate Stood()
      reads this
    {
      steps == old(steps) && ws == old(ws)
    }

    /** Nothing is touched that does not belong to the two ends, nor the halves of them that this connection does
        not use, nor the interest of the polls in the sending end. */
    twostate predicate Frames()
      reads *
    {
      && fresh(a.Repr() - old(a.Repr())) && fresh(b.Repr() - old(b.Repr()))
      && a.receiver.r == old(a.receiver.r) && b.sender.s == old(b.sender.s)
      && a.SameInterest()
    }

    /** Nothing new belongs to the two ends. */
    twostate lemma NothingNew()
      requires a.Repr() == old(a.Repr()) && b.Repr() <= old(b.Repr())
      requires a.receiver.r == old(a.receiver.r) && b.sender.s == old(b.sender.s) && a.SameInterest()
      ensures Frames()
    {
      hide Socket.Repr, Socket.SameInterest;
      assert a.Repr() - old(a.Repr()) == {} && b.Repr() - old(b.Repr()) == {};
    }

    twostate lemma NothingHappened()
      requires old(Valid()) && a.LeftAlone() && b.LeftAlone()
      ensures Frames()
    {
      hide Socket.Valid, Socket.Repr, Frames, Socket.SameInterest;
      a.Unaffected();
      b.Unaffected();
      NothingNew();
    }

    /** What touches neither the connection nor its ends does not concern it. */
    twostate lemma StaysValid()
      requires old(Valid()) && a.LeftAlone() && b.LeftAlone() && unchanged(this)
      ensures Valid() && a.Repr() == old(a.Repr()) && b.Repr() == old(b.Repr())
    {
      hide Socket.Valid, Socket.Repr, RunTo, Carried, UserBytes, Socket.SameInterest;
      a.Unaffected();
      b.Unaffected();
    }

    twostate predicate UsersIdle()
      reads this
    {
      accepted == old(accepted) && returned == old(returned)
    }

    /** Note the step the two ends have taken, and put what was sent on the network. */
    method Commit(ghost step: Step, ghost w': World, ghost out: seq<Msg>, sent: set<Datagram>, taken: Option<int>)
      requires Hosts() && a.sender.s == w'.snd && b.receiver.r == w'.rcv
      requires RunTo(ws, steps, w, mss, size, isStream) && Next(w, step, w')
      requires net == Carried(w.net, isn) && w'.net == w.net + Sent(out) && sent == Carried(Sent(out), isn)
      requires taken == PickedOnWire(w'.snd.picked, isn)
      modifies this
      ensures Valid() && Took(step) && w == w' && net == old(net) + sent
      ensures a.Repr() == old(a.Repr()) && b.Repr() == old(b.Repr())
      ensures accepted == UserBytes(w.snd.log) && returned == w.rcv.out
    {
      hide Socket.Valid, Socket.Repr, RunTo, Next, Carried, UserBytes;
      RunGoesOn(ws, steps, w, step, w', mss, size, isStream);
      CommitRun([step], [w'], w', out, sent, taken);
    }

    method CommitRun(ghost path: seq<Step>, ghost run: seq<World>, ghost w': World, ghost out: seq<Msg>,
                     sent: set<Datagram>, taken: Option<int>)
      requires Hosts() && a.sender.s == w'.snd && b.receiver.r == w'.rcv
      requires RunTo(ws + run, steps + path, w', mss, size, isStream) && |run| == |path|
      requires net == Carried(w.net, isn) && w'.net == w.net + Sent(out) && sent == Carried(Sent(out), isn)
      requires taken == PickedOnWire(w'.snd.picked, isn)
      modifies this
      ensures Valid() && steps == old(steps) + path && ws == old(ws) + run && w == w' && net == old(net) + sent
      ensures a.Repr() == old(a.Repr()) && b.Repr() == old(b.Repr())
      ensures accepted == UserBytes(w.snd.log) && returned == w.rcv.out
    {
      hide Socket.Valid, Socket.Repr, RunTo, Carried, UserBytes;
      CarriedMore(w.net, Sent(out), isn);
      a.ReprIsThere();
      b.ReprIsThere();
      net, picked := net + sent, taken;
      w, ws, steps := w', ws + run, steps + path;
      accepted, returned := UserBytes(w'.snd.log), w'.rcv.out;
      a.Unaffected();
      b.Unaffected();
    }

    // ----- the sending end

    /** These bytes of a stream have been accepted. */
    twostate predicate Accepts(data: seq<Byte>)
      reads this
    {
      && (if data == [] then Stood() else Took(UserSends(data, false)))
      && accepted == old(accepted) + data && returned == old(returned)
    }

    /** `send` */
    method Send(data: seq<Byte>) returns (res: SendResult, n: nat)
      requires Valid()
      modifies this, a.Repr()
      ensures n <= |data| && Accepts(data[..n])
      ensures Valid() && (res == WrongType <==> !isStream) && (res == Accepted <==> n > 0)
      ensures Frames()
    {
      hide Socket.Valid, Socket.Repr, RunTo, Inv, Next, Carried, Senders.Ordered, UserBytes, UserSend, Room,
        Socket.SameInterest;
      SenderReady();
      res, n := PassBytes(data);
      if n > 0 {
        ghost var w' := World(a.sender.s, w.rcv, w.net + Sent([]));
        UserSendsIsStep(w, data[..n], false, w');
        SentOnWire([], isn);
        Commit(UserSends(data[..n], false), w', [], {}, picked);
      }
    }

    /** `sendmsg` */
    method SendMsg(data: seq<Byte>, inOrder: bool) returns (res: SendResult)
      requires Valid()
      modifies this, a.Repr()
      ensures if res == Accepted then Took(UserSends(data, inOrder)) else Stood()
      ensures Valid() && (res == WrongType <==> isStream)
      ensures accepted == old(accepted) + (if res == Accepted then data else []) && returned == old(returned)
      ensures Frames()
    {
      hide Socket.Valid, Socket.Repr, RunTo, Inv, Next, Carried, Senders.Ordered, UserBytes, UserSend, Room,
        Socket.SameInterest;
      SenderReady();
      res := PassMsg(data, inOrder);
      if res == Accepted {
        ghost var w' := World(a.sender.s, w.rcv, w.net + Sent([]));
        UserSendsIsStep(w, data, inOrder, w');
        SentOnWire([], isn);
        Commit(UserSends(data, inOrder), w', [], {}, picked);
      }
    }

    /** `packData`, first half, unless the second half of an earlier one is still to come. */
    method TakeLost() returns (some: bool)
      requires Valid()
      modifies this, a.Repr()
      ensures if some then Took(PicksLost) else Stood()
      ensures Valid() && UsersIdle()
      ensures Frames()
    {
      hide Socket.Valid, Socket.Repr, RunTo, Inv, Next, Carried, Senders.Ordered, UserBytes, Wire, Min, IsMin,
        Frames, Socket.SameInterest;
      if picked.Some? {
        NothingHappened();
        return false;
      }
      SenderReady();
      var seqno := a.TakeLost();
      b.Unaffected();
      some := seqno >= 0;
      if some {
        ghost var w' := World(a.sender.s, w.rcv, w.net + Sent([]));
        PickIsStep(w, w');
        SentOnWire([], isn);
        Commit(PicksLost, w', [], {}, Some(seqno));
      }
      NothingNew();
    }

    /** `packData`, second half, if a number has been taken. */
    method PackLost() returns (sent: set<Datagram>)
      requires Valid() && (w.snd.picked.Some? ==> Recent(w.snd.picked.value, w.snd.curr))
      modifies this, a.Repr()
      ensures if old(picked).Some? then Took(PacksPicked) else Stood()
      ensures Valid() && UsersIdle() && net == old(net) + sent
      ensures Frames()
    {
      hide Socket.Valid, Socket.Repr, RunTo, Inv, Next, Carried, Senders.Ordered, UserBytes, Wire, Near, PackPicked,
        Frames, Socket.SameInterest;
      if picked.None? {
        NothingHappened();
        return {};
      }
      SenderReady();
      ghost var n := w.snd.picked.value;
      var payload, f := a.PackLost(picked.value);
      b.Unaffected();
      sent := if payload == 0 then {} else {DataPacket(picked.value, f)};
      ghost var out := if payload == 0 then [] else [Data(n, f)];
      ghost var w' := World(a.sender.s, w.rcv, w.net + Sent(out));
      PackPickedIsStep(w, w', out);
      SentOnWire(out, isn);
      Commit(PacksPicked, w', out, sent, None);
      NothingNew();
    }

    /** `packData` when nothing is lost. */
    method PackNew(congestionWindow: int) returns (sent: set<Datagram>)
      requires Valid()
      modifies this, a.Repr()
      ensures Valid() && UsersIdle() && Took(PacksNew(congestionWindow)) && net == old(net) + sent
      ensures var s, n := old(w).snd, old(w).snd.curr + 1;
              sent == if Effects.MaySendNext(s, congestionWindow) then {DataPacket(Wire(isn + n), s.frags[n])} else {}
      ensures Frames()
    {
      hide Socket.Valid, Socket.Repr, RunTo, Inv, Next, Carried, Senders.Ordered, UserBytes, Wire,
        SenderSpec.PackNew, Frames, Socket.SameInterest;
      SenderReady();
      var payload, seqno, f := a.PackNew(congestionWindow);
      b.Unaffected();
      sent := if payload == 0 then {} else {DataPacket(seqno, f)};
      ghost var out := if payload == 0 then [] else [Data(a.sender.s.curr, f)];
      ghost var w' := World(a.sender.s, w.rcv, w.net + Sent(out));
      PackNewIsStep(w, congestionWindow, w', out);
      SentOnWire(out, isn);
      Commit(PacksNew(congestionWindow), w', out, sent, picked);
      NothingNew();
    }

    /** The expiration timer. */
    method Expire()
      requires Valid()
      modifies this, a.Repr()
      ensures Valid() && UsersIdle() && Took(Expires) && Effects.RetakesAll(old(w).snd, w.snd)
      ensures Frames()
    {
      hide Socket.Valid, Socket.Repr, RunTo, Inv, Next, OnExpire, Carried, Senders.Ordered, UserBytes, Frames,
        Socket.SameInterest, Effects.RetakesAll;
      SenderReady();
      a.OnExpire();
      b.Unaffected();
      ghost var w' := World(a.sender.s, w.rcv, w.net + Sent([]));
      ExpireIsStep(w, w');
      Effects.Expiry(w, w');
      SentOnWire([], isn);
      Commit(Expires, w', [], {}, picked);
      NothingNew();
    }

    /** A full acknowledgement arrives; `due` says that it is time to answer one. */
    method GetAck(ackNo: int, ack: int, window: int, due: bool) returns (sent: set<Datagram>, ghost m: Msg)
      requires Valid() && exists m :: StandsFor(AckPacket(ackNo, ack, window), m, w, isn)
      modifies this, a.Repr()
      ensures Valid() && UsersIdle() && StandsFor(AckPacket(ackNo, ack, window), m, old(w), isn)
      ensures Took(SenderGets(m, due)) && net == old(net) + sent
      ensures m.Ack? && Effects.TakesOver(old(w).snd, m.ack, window, w.snd)
      ensures sent == if Effects.MustAnswer(old(w).snd, ackNo, due) then {Ack2Packet(ackNo)} else {}
      ensures Frames()
    {
      hide Socket.Valid, Socket.Repr, RunTo, Inv, Next, Carried, Senders.Ordered, UserBytes, Wire, NearSent,
        SenderSpec.OnAck, Frames, Socket.SameInterest, Effects.MustAnswer, Effects.TakesOver;
      SenderReady();
      m :| StandsFor(AckPacket(ackNo, ack, window), m, w, isn);
      SenderMayHandle(w, m);
      var answer := a.OnAck(ackNo, ack, window, due, m.ack);
      b.Unaffected();
      sent := if answer.Some? then {Ack2Packet(answer.value)} else {};
      ghost var out := if answer.Some? then [Ack2(answer.value)] else [];
      ghost var w' := World(a.sender.s, w.rcv, w.net + Sent(out));
      AckIsStep(w, m, due, w', out);
      Effects.AckTaken(w, m.ackNo, m.ack, m.window, due, w');
      SentOnWire(out, isn);
      Commit(SenderGets(m, due), w', out, sent, picked);
      NothingNew();
    }

    /** A light acknowledgement arrives. */
    method GetLightAck(ack: int) returns (ghost m: Msg)
      requires Valid() && exists m :: StandsFor(LightAckPacket(ack), m, w, isn)
      modifies this, a.Repr()
      ensures Valid() && UsersIdle() && StandsFor(LightAckPacket(ack), m, old(w), isn) && Took(SenderGets(m, false))
      ensures Frames()
    {
      hide Socket.Valid, Socket.Repr, RunTo, Inv, Next, Carried, Senders.Ordered, UserBytes, Wire, Near,
        SenderSpec.OnLightAck, Frames, Socket.SameInterest;
      SenderReady();
      m :| StandsFor(LightAckPacket(ack), m, w, isn);
      SenderMayHandle(w, m);
      a.OnLightAck(ack, m.lightAck);
      b.Unaffected();
      ghost var w' := World(a.sender.s, w.rcv, w.net + Sent([]));
      LightAckIsStep(w, m, w');
      SentOnWire([], isn);
      Commit(SenderGets(m, false), w', [], {}, picked);
      NothingNew();
    }

    /** A loss report arrives. */
    method GetNak(words: seq<int>) returns (ghost m: Msg)
      requires Valid() && exists m :: StandsFor(NakPacket(words), m, w, isn)
      modifies this, a.Repr()
      ensures Valid() && UsersIdle() && StandsFor(NakPacket(words), m, old(w), isn) && Took(SenderGets(m, false))
      ensures Frames()
    {
      hide Socket.Valid, Socket.Repr, RunTo, Inv, Next, Carried, Senders.Ordered, UserBytes, NakCoding.Encode,
        AllAbsolute, NearItem, SenderSpec.OnNak, Frames, Socket.SameInterest;
      SenderReady();
      m :| StandsFor(NakPacket(words), m, w, isn);
      SenderMayHandle(w, m);
      a.OnNak(words, m.items);
      b.Unaffected();
      ghost var w' := World(a.sender.s, w.rcv, w.net + Sent([]));
      NakIsStep(w, m, w');
      SentOnWire([], isn);
      Commit(SenderGets(m, false), w', [], {}, picked);
      NothingNew();
    }

    // ----- the receiving end

    /** A data packet arrives. */
    method GetData(seqno: int, frag: Frag) returns (sent: set<Datagram>, ghost m: Msg)
      requires Valid() && exists m :: StandsFor(DataPacket(seqno, frag), m, w, isn)
      modifies this, b.Repr()
      ensures Valid() && UsersIdle() && StandsFor(DataPacket(seqno, frag), m, old(w), isn)
      ensures Took(ReceiverGets(m, false)) && net == old(net) + sent
      ensures m.Data? && Effects.Stores(old(w).rcv, m.n, frag, w.rcv)
      ensures exists nak :: Codes(nak, w.rcv.loss - old(w).rcv.loss, isn)
                            && sent == if nak == [] then {} else {NakPacket(nak)}
      ensures Frames()
    {
      hide Socket.Valid, Socket.Repr, RunTo, Inv, Next, Carried, ReceiverInv, UserBytes, Wire, Near, NakSent,
        ReceiverSpec.OnData, Socket.SameInterest, Codes, Effects.Stores;
      ReceiverReady();
      m :| StandsFor(DataPacket(seqno, frag), m, w, isn);
      ReceiverMayHandle(w, m);
      DataOnWire(seqno, frag, m, isn);
      ghost var out := ReceiverSpec.OnData(w.rcv, m.n, frag).1;
      var nak := PassPacket(seqno, frag, m.n);
      sent := if nak == [] then {} else {NakPacket(nak)};
      ghost var w' := World(w.snd, b.receiver.r, w.net + Sent(out));
      DataIsStep(w, m, w', out);
      Effects.DataStored(w, m.n, frag, false, w');
      NakOnWire(out, nak, isn);
      Commit(ReceiverGets(m, false), w', out, sent, picked);
    }

    /** The answer to an acknowledgement arrives; the measured round-trip time may be any number. */
    method GetAck2(ackNo: int, now: int) returns (rtt: int)
      requires Valid() && Ack2Lag(w.rcv) < SEQ_NO_TH && Ack2Packet(ackNo) in net
      modifies this, b.Repr()
      ensures Valid() && UsersIdle() && Took(ReceiverGets(Ack2(ackNo), rtt > 0))
      ensures Frames()
    {
      hide Socket.Valid, Socket.Repr, RunTo, Inv, Next, Carried, Steady, UserBytes, ReceiverSpec.OnAck2, Frames,
        Socket.SameInterest;
      ReceiverReady();
      Ack2OnWire(w.net, ackNo, isn);
      rtt := b.OnAck2(ackNo, now);
      a.Unaffected();
      ghost var w' := World(w.snd, b.receiver.r, w.net + Sent([]));
      Ack2IsStep(w, ackNo, rtt > 0, w');
      SentOnWire([], isn);
      Commit(ReceiverGets(Ack2(ackNo), rtt > 0), w', [], {}, picked);
      NothingNew();
    }

    /** The acknowledgement timer. */
    method AckTimer(due: bool, now: int) returns (sent: set<Datagram>)
      requires Valid() && Ack2Lag(w.rcv) < SEQ_NO_TH
      modifies this, b.Repr()
      ensures Valid() && UsersIdle() && Took(Protocol.AckTimer(due)) && net == old(net) + sent
      ensures Effects.IsFirstMissing(old(w).rcv, w.rcv.lastAck)
      ensures sent == if !Effects.AckIsDue(old(w).rcv, due, w.rcv) then {} else
                {AckPacket(IncAck(old(w).rcv.ackNo), Wire(isn + w.rcv.lastAck),
                           Effects.Larger(2, Effects.RoomLeft(w.rcv)))}
      ensures Frames()
    {
      hide Socket.Valid, Socket.Repr, RunTo, Inv, Next, Carried, Steady, UserBytes, Wire, ReceiverSpec.SendAck,
        Socket.SameInterest, Effects.AckIsDue, Effects.Larger, Effects.RoomLeft, IncAck, Effects.IsFirstMissing;
      ReceiverReady();
      Effects.FirstMissingIsAcked(w.rcv, due);
      ghost var out;
      sent, out := PassAckTimer(due, now);
      ghost var w' := World(w.snd, b.receiver.r, w.net + Sent(out));
      AckTimerIsStep(w, due, w', out);
      SentOnWire(out, isn);
      Commit(Protocol.AckTimer(due), w', out, sent, picked);
    }

    /** Many packets have arrived since the last acknowledgement. */
    method SendLightAck() returns (sent: set<Datagram>)
      requires Valid() && Ack2Lag(w.rcv) < SEQ_NO_TH
      modifies this
      ensures Valid() && UsersIdle() && Took(LightAckDue) && net == old(net) + sent
      ensures Frames()
    {
      hide Socket.Valid, Socket.Repr, RunTo, Inv, Next, Carried, Steady, UserBytes, Wire, AckValue, Frames,
        Socket.SameInterest;
      ReceiverReady();
      b.ReprIsThere();
      var ack := b.SendLightAck();
      a.Unaffected();
      b.Unaffected();
      sent := if ack == -1 then {} else {LightAckPacket(ack)};
      ghost var out := ReceiverSpec.SendLightAck(w.rcv);
      ghost var w' := World(w.snd, w.rcv, w.net + Sent(out));
      LightAckDueIsStep(w, w', out);
      SentOnWire(out, isn);
      Commit(LightAckDue, w', out, sent, picked);
      NothingNew();
    }

    /** `recv`: what is returned are the next bytes accepted at the other end. */
    method Recv(data: array<Byte>, len: nat) returns (ok: bool, n: nat)
      requires Valid() && len <= data.Length && data !in a.Repr() + b.Repr()
      modifies this, b.Repr(), data
      ensures if ok then Took(UserReceives(len)) else Stood()
      ensures Valid() && ok == isStream
      ensures n <= len && returned == old(returned) + data[..n] && accepted == old(accepted)
      ensures ok ==> returned <= accepted
      ensures Frames()
    {
      hide Socket.Valid, Socket.Repr, RunTo, Inv, Next, Carried, UserBytes, Readable, ReceiverSpec.Recv,
        Socket.SameInterest;
      if !isStream {
        NothingHappened();
        return false, 0;
      }
      ok := true;
      ReceiverReady();
      ReceiverReadsStream(w);
      n := PassRead(data, len);
      ghost var w' := World(w.snd, b.receiver.r, w.net + Sent([]));
      RecvIsStep(w, len, w');
      SentOnWire([], isn);
      Commit(UserReceives(len), w', [], {}, picked);
      BytesArrive();
    }

    /** `recvmsg`: it reads a message, if one is deliverable, and releases what has been read at the front. */
    method RecvMsg(data: array<Byte>, len: nat) returns (ok: bool, n: nat, more: bool)
      requires Valid() && len <= data.Length && data !in a.Repr() + b.Repr()
      modifies this, b.Repr(), data
      ensures if !ok || len == 0 then Stood() else TookBoth(UserReceivesMessage(len), UserAsksForMessage)
      ensures Valid() && UsersIdle() && ok == !isStream
      ensures n <= len && Returned(old(w.rcv.got), w.rcv.got, data[..n])
      ensures Frames()
    {
      hide Socket.Valid, Socket.Repr, RunTo, Inv, Next, Carried, UserBytes, MessagesInOrder, ReadsOneVia, Returned,
        Socket.SameInterest;
      ok := !isStream;
      if !ok || len == 0 {
        NothingReturned(w.rcv.got, data[..0]);
        NothingHappened();
        return ok, 0, false;
      }
      ReceiverReady();
      ReceiverReadsMessages(w);
      n, more := PassMessage(data, len);
      ghost var r1 :| ReadsOneVia(w.rcv, len, r1, b.receiver.r, more);
      ghost var w1 := w.(rcv := r1);
      ghost var w' := World(w.snd, b.receiver.r, w.net + Sent([]));
      RecvMsgIsTwoSteps(w, len, w1, w', more);
      RunGoesOn(ws, steps, w, UserReceivesMessage(len), w1, mss, size, isStream);
      RunGoesOn(ws + [w1], steps + [UserReceivesMessage(len)], w1, UserAsksForMessage, w', mss, size, isStream);
      assert ws + [w1] + [w'] == ws + [w1, w'];
      assert steps + [UserReceivesMessage(len)] + [UserAsksForMessage] ==
        steps + [UserReceivesMessage(len), UserAsksForMessage];
      SentOnWire([], isn);
      CommitRun([UserReceivesMessage(len), UserAsksForMessage], [w1, w'], w', [], {}, picked);
    }

    /** `epoll_add_usock` at the receiving end: in message mode it scans for a message. */
    method Watch(eid: int, ev: Events) returns (ok: bool)
      requires Valid()
      modifies this, b.Repr()
      ensures if ok && !isStream then Took(UserAsksForMessage) else Stood()
      ensures Valid() && UsersIdle() && ok == (eid in old(b.epoll.polls))
      ensures ok ==> eid in b.pollIds
      ensures Frames()
    {
      hide Socket.Valid, Socket.Repr, RunTo, Inv, Next, Carried, UserBytes, SkipTaken, MessagesInOrder,
        Socket.SameInterest;
      ReceiverReady();
      if !isStream {
        ReceiverReadsMessages(w);
      }
      ok := PassWatch(eid, ev);
      if ok && !isStream {
        ghost var w' := World(w.snd, b.receiver.r, w.net + Sent([]));
        ScanIsStep(w, w');
        SentOnWire([], isn);
        Commit(UserAsksForMessage, w', [], {}, picked);
      }
    }

    // What these do to the two ends.

    method PassWatch(eid: int, ev: Events) returns (ok: bool)
      requires Hosts() && (!isStream ==> MessagesInOrder(b.receiver.r))
      modifies b.Repr()
      ensures Hosts() && Frames() && a.sender.s == old(a.sender.s) && ok == (eid in old(b.epoll.polls))
      ensures b.receiver.r == if ok && !isStream then SkipTaken(old(b.receiver.r)) else old(b.receiver.r)
      ensures ok ==> eid in b.pollIds
    {
      hide Socket.Valid, Socket.Repr, MessagesInOrder, SkipTaken, SameWatch, SameButFor, Receiver.Lists, Receiver.Acks,
        Receiver.Repr, Sender.Repr, Socket.SameInterest;
      a.ReprIsThere();
      b.ReceiverParts();
      ok := b.Watch(eid, ev);
      a.Unaffected();
    }

    method PassBytes(data: seq<Byte>) returns (res: SendResult, n: nat)
      requires Hosts() && Senders.Ordered(a.sender.s, a.sender.size) && a.sender.s.mss > 0
      modifies a.Repr()
      ensures n <= |data| && (res == WrongType <==> !isStream) && (res == Accepted <==> n > 0)
      ensures Hosts() && Frames() && b.receiver.r == old(b.receiver.r)
      ensures a.sender.s == if n == 0 then old(a.sender.s) else UserSend(old(a.sender.s), data[..n], false)
    {
      hide Socket.Valid, Socket.Repr, Senders.Ordered, UserSend, Room, SameWatch, SameButFor, Sender.Areas,
        Sender.Lists, Socket.SameInterest;
      a.SenderParts();
      b.ReprIsThere();
      res, n := a.Send(data);
      b.Unaffected();
    }

    method PassMsg(data: seq<Byte>, inOrder: bool) returns (res: SendResult)
      requires Hosts() && Senders.Ordered(a.sender.s, a.sender.size) && a.sender.s.mss > 0
      modifies a.Repr()
      ensures Hosts() && Frames() && b.receiver.r == old(b.receiver.r)
      ensures (res == WrongType <==> isStream) && (res == Accepted ==> data != [])
      ensures a.sender.s == if res == Accepted then UserSend(old(a.sender.s), data, inOrder) else old(a.sender.s)
    {
      hide Socket.Valid, Socket.Repr, Senders.Ordered, UserSend, Room, SameWatch, SameButFor, Sender.Areas,
        Sender.Lists, Socket.SameInterest;
      a.SenderParts();
      b.ReprIsThere();
      res := a.SendMsg(data, inOrder);
      b.Unaffected();
    }

    method PassPacket(seqno: int, frag: Frag, ghost n: int) returns (nak: seq<int>)
      requires Hosts() && ReceiverInv(b.receiver.r) && seqno == Wire(isn + n) && 0 <= n
      requires Near(n, b.receiver.r.lastAck) && Near(n, b.receiver.r.curr) && Near(n, b.receiver.r.curr + 1)
      modifies b.Repr()
      ensures Hosts() && Frames() && a.sender.s == old(a.sender.s)
      ensures b.receiver.r == ReceiverSpec.OnData(old(b.receiver.r), n, frag).0
      ensures NakSent(ReceiverSpec.OnData(old(b.receiver.r), n, frag).1, nak, isn)
      ensures Codes(nak, b.receiver.r.loss - old(b.receiver.r).loss, isn)
    {
      hide Socket.Valid, Socket.Repr, ReceiverInv, Wire, Near, NakSent, Codes, ReceiverSpec.OnData,
        Socket.SameInterest;
      a.ReprIsThere();
      b.ReprIsThere();
      var unit := new Unit(frag);
      a.Unaffected();
      b.Unaffected();
      nak := PassUnit(unit, seqno, n);
      forall o: object | o in b.Repr() && o !in old(b.Repr()) ensures fresh(o) {
        assert o == unit;
      }
      a.Unaffected();
      assert a.Repr() - old(a.Repr()) == {};
    }

    method PassUnit(unit: Unit, seqno: int, ghost n: int) returns (nak: seq<int>)
      requires Hosts() && ReceiverInv(b.receiver.r) && seqno == Wire(isn + n) && 0 <= n
      requires Near(n, b.receiver.r.lastAck) && Near(n, b.receiver.r.curr) && Near(n, b.receiver.r.curr + 1)
      requires unit.flag == 0 && unit !in a.Repr() && unit !in b.Repr()
      modifies b.Repr(), unit`flag
      ensures Hosts() && b.Repr() <= old(b.Repr()) + {unit} && a.Repr() == old(a.Repr()) && a.SameInterest()
      ensures a.sender.s == old(a.sender.s) && a.receiver.r == old(a.receiver.r) && b.sender.s == old(b.sender.s)
      ensures b.receiver.r == ReceiverSpec.OnData(old(b.receiver.r), n, old(unit.frag)).0
      ensures NakSent(ReceiverSpec.OnData(old(b.receiver.r), n, old(unit.frag)).1, nak, isn)
      ensures Codes(nak, b.receiver.r.loss - old(b.receiver.r).loss, isn)
    {
      hide Socket.Valid, Socket.Repr, ReceiverInv, Wire, Near, NakSent, Codes, ReceiverSpec.OnData, Receiver.Lists,
        Receiver.Acks, Receiver.Repr, Sender.Repr, RcvBuffer.Units, Socket.SameInterest;
      a.ReprIsThere();
      b.ReceiverParts();
      b.NotMine(unit);
      nak := b.OnData(unit, seqno, n);
      a.Unaffected();
    }

    method PassAckTimer(due: bool, now: int) returns (sent: set<Datagram>, ghost out: seq<Msg>)
      requires Hosts() && Steady(b.receiver.r)
      modifies b.Repr()
      ensures Hosts() && Frames() && a.sender.s == old(a.sender.s)
      ensures (b.receiver.r, out) == ReceiverSpec.SendAck(old(b.receiver.r), due) && |out| <= 1
      ensures sent == Carried(Sent(out), isn)
    {
      hide Socket.Valid, Socket.Repr, Steady, Wire, ReceiverSpec.SendAck, Receiver.Lists, Receiver.Acks,
        Receiver.Repr, Sender.Repr, Carried, Frames, Socket.SameInterest, Effects.AckIsDue, Effects.Larger,
        Effects.RoomLeft, IncAck;
      a.ReprIsThere();
      b.ReceiverParts();
      var some, ackNo, ack, window := b.SendAck(due, now);
      a.Unaffected();
      sent := if some then {AckPacket(ackNo, ack, window)} else {};
      out := if some then [Ack(ackNo, b.receiver.r.lastAck, window)] else [];
      SentOnWire(out, isn);
      NothingNew();
    }

    method PassRead(data: array<Byte>, len: nat) returns (n: nat)
      requires Hosts() && isStream && len <= data.Length && data !in a.Repr() + b.Repr()
      requires var r := b.receiver.r; Readable(r.stored, r.start, r.lastAck, r.notch) && r.taken == {}
      modifies b.Repr(), data
      ensures Hosts() && Frames() && a.sender.s == old(a.sender.s)
      ensures b.receiver.r == ReceiverSpec.Recv(old(b.receiver.r), len)
      ensures n <= len && b.receiver.r.out == old(b.receiver.r).out + data[..n]
    {
      hide Socket.Valid, Socket.Repr, Readable, ReceiverSpec.Recv, Receiver.Lists, Receiver.Acks, Receiver.Repr,
        Sender.Repr, Frames, Socket.SameInterest;
      a.ReprIsThere();
      b.ReceiverParts();
      b.NotMine(data);
      var ok;
      ok, n := b.Recv(data, len);
      a.Unaffected();
      NothingNew();
    }

    method PassMessage(data: array<Byte>, len: nat) returns (n: nat, more: bool)
      requires Hosts() && !isStream && 0 < len <= data.Length && data !in a.Repr() + b.Repr()
      requires MessagesInOrder(b.receiver.r)
      modifies b.Repr(), data
      ensures Hosts() && Frames() && a.sender.s == old(a.sender.s)
      ensures ReadsOne(old(b.receiver.r), len, b.receiver.r, more)
      ensures n <= len && Returned(old(b.receiver.r).got, b.receiver.r.got, data[..n])
    {
      hide Socket.Valid, Socket.Repr, MessagesInOrder, ReadsOne, Returned, Receiver.Lists, Receiver.Acks,
        Receiver.Repr, Sender.Repr, Frames, Socket.SameInterest;
      a.ReprIsThere();
      b.ReceiverParts();
      b.NotMine(data);
      var ok;
      ok, n, more := b.RecvMsg(data, len);
      a.Unaffected();
      NothingNew();
    }

    // ----- what holds of the program

    /** In stream mode, what `recv` has returned is a prefix of what `send` has accepted. */
    lemma BytesArrive()
      requires Valid() && isStream
      ensures returned <= accepted
    {
      hide Socket.Valid, Socket.Repr, Next;
      StreamDelivery(ws, steps, mss, size, |ws| - 1);
    }

    /** When all messages are sent in order, the messages `recvmsg` has returned are the first ones accepted. */
    lemma MessagesArrive(i: nat)
      requires Valid() && !isStream && i < |w.rcv.got|
      requires forall k :: 0 <= k < |w.snd.log| ==> w.snd.log[k].inOrder
      ensures i < |w.snd.log| && w.rcv.got[i].data == Truncated(w.snd.log[i].data, w.rcv.got[i].len)
    {
      hide Socket.Valid, Socket.Repr, Next;
      InOrderDelivery(ws, steps, mss, size, |ws| - 1, i);
    }

    /** In stream mode, what has been accepted can still arrive, all of it. */
    lemma BytesCanArrive() returns (w': World)
      requires Valid() && isStream
      ensures Recovery.Leads(w, w') && w'.rcv.out == accepted
    {
      hide Socket.Valid, Socket.Repr, Next, Recovery.Leads, UserBytes;
      w' := Liveness.StreamArrives(ws, steps, mss, size, |ws| - 1);
    }

    /** In message mode, what has been accepted can still be delivered, all of it, if and only if no message is longer
        than the receive buffer can hold. */
    lemma MessagesCanArrive()
      requires Valid() && !isStream
      ensures (exists w' :: Recovery.Leads(w, w') && Liveness.AllDelivered(w')) <==>
              forall k :: 0 <= k < |w.snd.log| ==> |w.snd.log[k].data| <= (size - 1) * w.snd.mss
    {
      hide Socket.Valid, Socket.Repr, Next, Recovery.Leads, Liveness.AllDelivered;
      Liveness.MessagesArrive(ws, steps, mss, size, |ws| - 1);
    }

    /** No branch for an attack or bug is ever taken. */
    lemma NeverBroken()
      requires Valid()
      ensures !a.sender.broken
    {
      hide Socket.Repr, RunTo, SndLossLists.SndLossList.Valid, SndBuffers.SndBuffer.Valid, Receiver.Valid, Agree;
      RunIsSafe(ws, steps, w, mss, size, isStream);
    }

    lemma SenderReady()
      requires Valid()
      ensures Inv(w) && w.rcv.size == size && w.snd.mss > 0 && Senders.Ordered(a.sender.s, a.sender.size)
      ensures w.snd.picked.Some? && Recent(w.snd.picked.value, w.snd.curr) ==> Near(w.snd.dataAck, w.snd.picked.value)
      ensures a in a.Repr() && a.epoll in a.Repr() && a.sender in a.Repr() && a.sender.buffer in a.Repr()
      ensures a.sender.Lists() <= a.Repr() && a.sender.Areas() <= a.Repr()
      ensures forall o: object? :: o in b.Repr() ==> o != null && allocated(o)
    {
      hide Socket.Valid, Socket.Repr, Senders.Ordered, RunTo;
      RunIsSafe(ws, steps, w, mss, size, isStream);
      SenderMayPack(w);
      a.SenderParts();
      b.ReprIsThere();
    }

    lemma ReceiverReady()
      requires Valid()
      ensures Inv(w) && w.rcv.size == size && w.rcv.isStream == isStream
      ensures ReceiverInv(b.receiver.r) && (Ack2Lag(w.rcv) < SEQ_NO_TH ==> Steady(b.receiver.r))
      ensures b in b.Repr() && b.epoll in b.Repr() && b.receiver in b.Repr()
      ensures b.receiver.Lists() <= b.Repr() && b.receiver.Acks() <= b.Repr()
      ensures b.receiver.buffer in b.Repr() && b.receiver.buffer.units in b.Repr()
      ensures b.receiver.buffer.Units() <= b.Repr()
      ensures forall o: object? :: o in a.Repr() ==> o != null && allocated(o)
    {
      hide Socket.Valid, Socket.Repr, RunTo, ReceiverInv;
      RunIsSafe(ws, steps, w, mss, size, isStream);
      b.ReceiverParts();
      a.ReprIsThere();
    }
  }

  // ----- what the ends do is a step of the protocol

  /** A step of the sender that no user sees. */
  ghost predicate SenderMoves(w: World, step: Step, w': World) {
    Next(w, step, w') && w'.snd.log == w.snd.log && w'.snd.picked == w.snd.picked
  }

  lemma UserSendsIsStep(w: World, data: seq<Byte>, inOrder: bool, w': World)
    requires data != [] && w.snd.mss > 0 && w' == World(UserSend(w.snd, data, inOrder), w.rcv, w.net + Sent([]))
    ensures Next(w, UserSends(data, inOrder), w') && w'.snd.picked == w.snd.picked
    ensures UserBytes(w'.snd.log) == UserBytes(w.snd.log) + data
  {
    assert w'.snd.log[..|w'.snd.log| - 1] == w.snd.log;
  }

  lemma PickIsStep(w: World, w': World)
    requires w.snd.loss != {} && w.snd.picked.None? && w' == World(Pick(w.snd), w.rcv, w.net + Sent([]))
    ensures Next(w, PicksLost, w') && w'.snd.log == w.snd.log
  {
  }

  lemma PackPickedIsStep(w: World, w': World, out: seq<Msg>)
    requires w.snd.picked.Some? && (w'.snd, out) == PackPicked(w.snd) && w' == World(w'.snd, w.rcv, w.net + Sent(out))
    ensures Next(w, PacksPicked, w') && w'.snd.log == w.snd.log && w'.snd.picked.None?
  {
  }

  lemma PackNewIsStep(w: World, cwnd: int, w': World, out: seq<Msg>)
    requires (w'.snd, out) == SenderSpec.PackNew(w.snd, cwnd) && w' == World(w'.snd, w.rcv, w.net + Sent(out))
    ensures SenderMoves(w, PacksNew(cwnd), w')
  {
  }

  lemma ExpireIsStep(w: World, w': World)
    requires w' == World(OnExpire(w.snd), w.rcv, w.net + Sent([]))
    ensures SenderMoves(w, Expires, w')
  {
  }

  lemma AckIsStep(w: World, m: Msg, due: bool, w': World, out: seq<Msg>)
    requires m in w.net && m.Ack? && (w'.snd, out) == SenderSpec.OnAck(w.snd, m.ackNo, m.ack, m.window, due)
    requires w' == World(w'.snd, w.rcv, w.net + Sent(out))
    ensures SenderMoves(w, SenderGets(m, due), w')
  {
  }

  lemma LightAckIsStep(w: World, m: Msg, w': World)
    requires m in w.net && m.LightAck?
    requires w' == World(SenderSpec.OnLightAck(w.snd, m.lightAck), w.rcv, w.net + Sent([]))
    ensures SenderMoves(w, SenderGets(m, false), w')
  {
  }

  lemma NakIsStep(w: World, m: Msg, w': World)
    requires m in w.net && m.Nak? && w' == World(SenderSpec.OnNak(w.snd, m.items), w.rcv, w.net + Sent([]))
    ensures SenderMoves(w, SenderGets(m, false), w')
  {
    NakKeepsLog(w.snd, m.items);
  }

  lemma {:induction false} NakKeepsLog(s: Snd, items: seq<LossItem>)
    ensures SenderSpec.OnNak(s, items).log == s.log && SenderSpec.OnNak(s, items).picked == s.picked
    decreases |items|
  {
    if items != [] {
      NakKeepsLog(OnLossItem(s, items[0]), items[1..]);
    }
  }

  /** A step of the receiver that no user sees. */
  ghost predicate ReceiverMoves(w: World, step: Step, w': World) {
    Next(w, step, w') && w'.rcv.out == w.rcv.out
  }

  lemma DataIsStep(w: World, m: Msg, w': World, out: seq<Msg>)
    requires m in w.net && m.Data? && (w'.rcv, out) == ReceiverSpec.OnData(w.rcv, m.n, m.frag)
    requires w' == World(w.snd, w'.rcv, w.net + Sent(out))
    ensures ReceiverMoves(w, ReceiverGets(m, false), w')
    ensures out == [] || (|out| == 1 && out[0].Nak? && out[0].items != [])
  {
  }

  lemma Ack2IsStep(w: World, no: int, positive: bool, w': World)
    requires Ack2(no) in w.net && w' == World(w.snd, ReceiverSpec.OnAck2(w.rcv, no, positive), w.net + Sent([]))
    ensures ReceiverMoves(w, ReceiverGets(Ack2(no), positive), w')
  {
  }

  lemma AckTimerIsStep(w: World, due: bool, w': World, out: seq<Msg>)
    requires (w'.rcv, out) == ReceiverSpec.SendAck(w.rcv, due) && w' == World(w.snd, w'.rcv, w.net + Sent(out))
    ensures ReceiverMoves(w, AckTimer(due), w')
  {
  }

  lemma LightAckDueIsStep(w: World, w': World, out: seq<Msg>)
    requires out == ReceiverSpec.SendLightAck(w.rcv) && w' == World(w.snd, w.rcv, w.net + Sent(out))
    ensures ReceiverMoves(w, LightAckDue, w')
  {
  }

  lemma RecvIsStep(w: World, len: nat, w': World)
    requires w.rcv.isStream && w' == World(w.snd, ReceiverSpec.Recv(w.rcv, len), w.net + Sent([]))
    ensures Next(w, UserReceives(len), w')
  {
  }

  lemma ScanIsStep(w: World, w': World)
    requires !w.rcv.isStream && w' == World(w.snd, SkipTaken(w.rcv), w.net + Sent([]))
    ensures ReceiverMoves(w, UserAsksForMessage, w')
  {
    SkipTakenMeaning(w.rcv);
  }

  lemma RecvMsgIsTwoSteps(w: World, len: nat, w1: World, w': World, more: bool)
    requires !w.rcv.isStream && ReadsOneVia(w.rcv, len, w1.rcv, w'.rcv, more)
    requires w1 == w.(rcv := w1.rcv) && w' == World(w.snd, w'.rcv, w.net + Sent([]))
    ensures Next(w, UserReceivesMessage(len), w1) && Next(w1, UserAsksForMessage, w') && w'.rcv.out == w.rcv.out
  {
    hide SkipTaken, Deliverable, LooksEmpty, Slice, Bytes, Truncated;
    SkipTakenMeaning(w.rcv);
    SkipTakenMeaning(w1.rcv);
    assert w'.rcv == SkipTaken(w1.rcv);
  }

  // ----- the network

  lemma CarriedMore(ms: set<Msg>, more: set<Msg>, isn: int)
    ensures Carried(ms + more, isn) == Carried(ms, isn) + Carried(more, isn)
  {
  }

  lemma SentOnWire(out: seq<Msg>, isn: int)
    ensures out == [] ==> Carried(Sent(out), isn) == {}
    ensures |out| == 1 ==> Carried(Sent(out), isn) == {OnWire(out[0], isn)}
  {
    if |out| == 1 {
      assert Sent(out) == {out[0]};
    }
  }

  lemma NakOnWire(out: seq<Msg>, nak: seq<int>, isn: int)
    requires NakSent(out, nak, isn) && (out != [] ==> out[0].Nak? && out[0].items != [])
    ensures Carried(Sent(out), isn) == if nak == [] then {} else {NakPacket(nak)}
  {
    SentOnWire(out, isn);
    if out != [] {
      EntriesHaveWords(out[0].items, isn);
    }
  }

  lemma DataOnWire(seqno: int, frag: Frag, m: Msg, isn: int)
    requires OnWire(m, isn) == DataPacket(seqno, frag)
    ensures m.Data? && seqno == Wire(isn + m.n) && frag == m.frag
  {
  }

  lemma Ack2OnWire(ms: set<Msg>, no: int, isn: int)
    requires Ack2Packet(no) in Carried(ms, isn)
    ensures Ack2(no) in ms
  {
  }
}
