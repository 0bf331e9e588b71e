/** The server's queue of one socket, joined to the connection the socket is an end of: what has been queued is
    what the peer receives. */
module Deliveries {
  import opened Packets
  import opened SenderSpec
  import opened ReceiverSpec
  import opened Protocol
  import opened Runs
  import opened RcvBuffers
  import opened Senders
  import opened Receivers
  import opened Epolls
  import opened Sockets
  import opened SendMsg
  import opened Connections
  import opened Drives

  /** The steps of the protocol that sending these messages takes. */
  lemma {:induction false} SentAllIsRun(ws: seq<World>, steps: seq<Step>, w: World, msgs: seq<Payload>,
                                        mss: nat, size: nat, isStream: bool)
    returns (run: seq<World>, path: seq<Step>, w': World)
    requires RunTo(ws, steps, w, mss, size, isStream) && w.snd.mss > 0
    ensures RunTo(ws + run, steps + path, w', mss, size, isStream) && |run| == |path|
    ensures w' == w.(snd := SentAll(w.snd, msgs)) && w'.snd.picked == w.snd.picked
  {
    hide RunTo, UserSend, Next;
    if msgs == [] {
      run, path, w' := [], [], w;
      assert ws + run == ws && steps + path == steps;
    } else {
      var front, m := msgs[..|msgs| - 1], msgs[|msgs| - 1];
      run, path, w' := SentAllIsRun(ws, steps, w, front, mss, size, isStream);
      if m != [] {
        var w1, step := w'.(snd := UserSend(w'.snd, m, true)), UserSends(m, true);
        SendIsStep(w', m, w1);
        RunGoesOn(ws + run, steps + path, w', step, w1, mss, size, isStream);
        assert ws + run + [w1] == ws + (run + [w1]) && steps + path + [step] == steps + (path + [step]);
        run, path, w' := run + [w1], path + [step], w1;
      }
    }
  }

  lemma SendIsStep(w: World, m: Payload, w': World)
    requires w.snd.mss > 0 && m != [] && w' == w.(snd := UserSend(w.snd, m, true))
    ensures Next(w, UserSends(m, true), w') && w'.snd.picked == w.snd.picked
  {
    assert w.net + Sent([]) == w.net;
  }

  /** The log holds exactly these messages, each of them marked in order. */
  ghost predicate LogHolds(log: seq<Message>, sent: seq<Payload>) {
    |log| == |sent| && forall i :: 0 <= i < |log| ==> log[i].data == sent[i] && log[i].inOrder
  }

  lemma HoldsMore(log: seq<Message>, log': seq<Message>, sent: seq<Payload>, more: seq<Payload>)
    requires LogHolds(log, sent) && GrownBy(log, log', more)
    ensures LogHolds(log', sent + more)
  {
    forall i | 0 <= i < |log'| ensures log'[i].data == (sent + more)[i] && log'[i].inOrder {
      if i < |log| {
        assert log'[i] == log'[..|log|][i];
      } else {
        assert log'[i] == log'[|log| + (i - |log|)];
      }
    }
  }

  lemma {:induction false} NonEmptyOfBoth(xs: seq<Payload>, ys: seq<Payload>)
    ensures NonEmpty(xs + ys) == NonEmpty(xs) + NonEmpty(ys)
  {
    if ys == [] {
      assert xs + ys == xs;
    } else {
      var n := |ys| - 1;
      assert (xs + ys)[..|xs| + n] == xs + ys[..n];
      NonEmptyOfBoth(xs, ys[..n]);
    }
  }

  /** The queue of one socket and the connection it is the sending end of. */
  /** The log of the connection holds what has been taken when `k` more messages have been taken from the queue. */
  lemma MoreTaken(s: Snd, queued: seq<Payload>, taken: nat, k: nat)
    requires s.mss > 0 && taken + k <= |queued| && LogHolds(s.log, NonEmpty(queued[..taken]))
    ensures LogHolds(SentAll(s, queued[taken..][..k]).log, NonEmpty(queued[..taken + k]))
    ensures queued[taken..][k..] == queued[taken + k..]
  {
    hide LogHolds, NonEmpty, SentAll;
    var more := queued[taken..][..k];
    SentInOrder(s, more);
    HoldsMore(s.log, SentAll(s, more).log, NonEmpty(queued[..taken]), NonEmpty(more));
    NonEmptyOfBoth(queued[..taken], more);
    assert queued[..taken] + more == queued[..taken + k];
  }

  class Link {
    const ctrl: SendMsgCtrl
    const conn: Connection

    ghost var queued: seq<Payload>   // every message ever queued
    ghost var taken: nat             // how many of them the socket has taken
    ghost var open: bool             // the socket has not been given up

    /** The control and its queues are separate from the two ends, and whole. */
    ghost predicate Built()
      reads *
    {
      && conn.Valid() && !conn.isStream && ctrl.Holds(conn.a)
      && ctrl !in conn.b.Repr() && ctrl.buf !in conn.b.Repr()
      && this !in conn.a.Repr() && this !in conn.b.Repr()
    }

    /** What has been taken is in the log of the connection; what has not is still in the queue, unless the
        socket has been given up. */
    ghost predicate Valid()
      reads *
    {
      && Built() && taken <= |queued| && LogHolds(conn.w.snd.log, NonEmpty(queued[..taken]))
      && (open ==> ctrl.Tracks(conn.a) && ctrl.buf.Queue(conn.a.id) == queued[taken..])
    }

    constructor (ctrl: SendMsgCtrl, conn: Connection)
      requires conn.Valid() && !conn.isStream && ctrl.Holds(conn.a) && ctrl.Tracks(conn.a)
      requires ctrl !in conn.b.Repr() && ctrl.buf !in conn.b.Repr()
      requires conn.w.snd.log == [] && ctrl.buf.Queue(conn.a.id) == []
      ensures Valid() && open && this.ctrl == ctrl && this.conn == conn && queued == []
    {
      hide Socket.Valid, Socket.Repr, InStep, MessagesInOrder, Senders.Ordered, RunTo, Carried, UserBytes;
      this.ctrl, this.conn := ctrl, conn;
      queued, taken, open := [], 0, true;
      conn.a.ReprIsThere();
      conn.b.ReprIsThere();
      new;
      conn.StaysValid();
    }

    /** `AddMsgToSendBuf` */
    method Queue(msg: Payload)
      requires Valid() && open
      modifies this, ctrl, ctrl.buf, conn.a.Repr()
      ensures Valid() && open && queued == old(queued) + [msg] && taken == old(taken) && conn.w == old(conn.w)
    {
      hide Connection.Valid, SendMsgCtrl.Holds, SendMsgCtrl.ViewOf, LogHolds, InStep, NonEmpty, Socket.Repr;
      conn.a.ReprIsThere();
      conn.b.ReprIsThere();
      PassToQueue(msg);
      label passed:
      queued := queued + [msg];
      StillBuilt@passed();
      assert queued[..taken] == old(queued)[..taken] && queued[taken..] == old(queued)[taken..] + [msg];
    }

    /** What changes only the fields of the link leaves everything else as it was. */
    twostate lemma StillBuilt()
      requires old(Built()) && conn.a.LeftAlone() && conn.b.LeftAlone() && unchanged(conn)
      requires unchanged(ctrl) && unchanged(ctrl.buf)
      ensures Built() && ctrl.ViewOf(conn.a) == old(ctrl.ViewOf(conn.a))
    {
      hide Socket.Valid, Socket.Repr, MessagesInOrder, Senders.Ordered, RunTo, Carried, UserBytes;
      conn.StaysValid();
      conn.a.SenderParts();
      conn.a.ReceiverParts();
    }

    method PassToQueue(msg: Payload)
      requires Built() && ctrl.Tracks(conn.a)
      modifies ctrl, ctrl.buf, conn.a.Repr()
      ensures Built() && ctrl.Tracks(conn.a) && ctrl.buf.Queue(conn.a.id) == old(ctrl.buf.Queue(conn.a.id)) + [msg]
      ensures unchanged(this) && unchanged(conn)
    {
      hide Socket.Valid, Socket.Repr, InStep, MessagesInOrder, Senders.Ordered, RunTo, Carried, UserBytes, SameButFor,
        SkipTaken, Receiver.Lists, Receiver.Acks, Receiver.Repr, Sender.Repr;
      conn.a.ReceiverParts();
      conn.b.ReprIsThere();
      ctrl.AddMsgToSendBuf(conn.a, msg);
      conn.b.Unaffected();
    }

    /** `TrySendMsgOfOneSock` */
    method Flush() returns (outcome: Outcome, ghost k: nat)
      requires Valid() && open
      modifies this, conn, ctrl, ctrl.buf, conn.a.Repr()
      ensures Valid() && queued == old(queued) && taken == old(taken) + k && open == (outcome != Failed)
      ensures outcome == Drained ==> taken == |queued|
    {
      hide Ahead, LogHolds, NonEmpty, SentAll, Room, Connection.Valid, SendMsgCtrl.Holds, Socket.Repr;
      ghost var (q, s0) := (queued[taken..], conn.w.snd);
      outcome, k := PassFlush();
      CatchUp(q[..k]);
      MoreTaken(s0, queued, taken, k);
      conn.a.ReprIsThere();
      conn.b.ReprIsThere();
      label caught:
      taken, open := taken + k, outcome != Failed;
      StillBuilt@caught();
    }

    /** The socket has taken these messages and the connection has not noted it yet. */
    ghost predicate Ahead(msgs: seq<Payload>)
      reads *
    {
      && conn.Hosts() && !conn.isStream && ctrl.Holds(conn.a)
      && ctrl !in conn.b.Repr() && ctrl.buf !in conn.b.Repr()
      && this !in conn.a.Repr() && this !in conn.b.Repr()
      && RunTo(conn.ws, conn.steps, conn.w, conn.mss, conn.size, conn.isStream)
      && conn.net == Carried(conn.w.net, conn.isn)
      && conn.picked == PickedOnWire(conn.w.snd.picked, conn.isn)
      && conn.w.snd.mss > 0 && conn.a.sender.s == SentAll(conn.w.snd, msgs) && conn.b.receiver.r == conn.w.rcv
    }

    method PassFlush() returns (outcome: Outcome, ghost k: nat)
      requires Built() && ctrl.Tracks(conn.a)
      modifies ctrl, ctrl.buf, conn.a.Repr()
      ensures Finished(ctrl.ViewOf(conn.a), ctrl.eid, conn.w.snd, old(ctrl.buf.Queue(conn.a.id)), k, outcome)
      ensures Ahead(old(ctrl.buf.Queue(conn.a.id))[..k]) && unchanged(this) && unchanged(conn)
    {
      hide Socket.Valid, Socket.Repr, InStep, MessagesInOrder, Senders.Ordered, RunTo, Carried, UserBytes, SameButFor,
        SentAll, Room, Receiver.Lists, Receiver.Acks, Receiver.Repr, Sender.Repr;
      conn.a.ReceiverParts();
      conn.a.SenderParts();
      conn.b.ReprIsThere();
      outcome, k := ctrl.TrySendMsgOfOneSock(conn.a);
      conn.b.Unaffected();
    }

    method CatchUp(ghost msgs: seq<Payload>)
      requires Ahead(msgs)
      modifies conn
      ensures Built() && conn.w.snd == SentAll(old(conn.w.snd), msgs)
      ensures ctrl.ViewOf(conn.a) == old(ctrl.ViewOf(conn.a))
    {
      hide Socket.Valid, Socket.Repr, InStep, MessagesInOrder, Senders.Ordered, RunTo, Carried, UserBytes, SentAll;
      ghost var w := conn.w;
      ghost var run, path, w' := SentAllIsRun(conn.ws, conn.steps, w, msgs, conn.mss, conn.size, conn.isStream);
      assert w.net + Sent([]) == w.net;
      SentOnWire([], conn.isn);
      conn.a.ReprIsThere();
      conn.CommitRun(path, run, w', [], {}, conn.picked);
      conn.a.SenderParts();
    }

    /** Anything else that happens to the connection: its timers, the network and the user at the other end. */
    method Happen(e: Event, data: array<Byte>)
      requires Valid() && Timely(conn.w, e, conn.isn) && !e.Write? && !e.WriteMsg?
      requires data !in conn.a.Repr() + conn.b.Repr()
      modifies conn, conn.a.Repr(), conn.b.Repr(), data
      ensures Valid() && queued == old(queued) && taken == old(taken) && open == old(open)
    {
      hide Built, LogHolds, NonEmpty, ComesTo, Timely, Inv;
      ghost var w := conn.w;
      PassEvent(e, data);
      LogKept(w, e, conn.w, conn.isn);
    }

    method PassEvent(e: Event, data: array<Byte>)
      requires Built() && Timely(conn.w, e, conn.isn) && data !in conn.a.Repr() + conn.b.Repr()
      modifies conn, conn.a.Repr(), conn.b.Repr(), data
      ensures Built() && ComesTo(old(conn.w), e, conn.w, conn.isn) && Inv(old(conn.w))
      ensures old(ctrl.Tracks(conn.a)) ==> ctrl.Tracks(conn.a)
      ensures ctrl.buf.Queue(conn.a.id) == old(ctrl.buf.Queue(conn.a.id)) && unchanged(this)
    {
      hide Socket.Valid, Socket.Repr, MessagesInOrder, Senders.Ordered, RunTo, Carried, UserBytes, ComesTo, Timely;
      conn.SenderReady();
      conn.a.ReprIsThere();
      conn.b.ReprIsThere();
      Do(conn, e, data);
      conn.SenderReady();
      conn.a.ReprIsThere();
      conn.b.ReprIsThere();
    }

    /** What the peer's `recvmsg` has returned are the first messages ever queued that are not empty, in the order
        they were queued, each of them whole up to the size of the buffer it was read into. */
    lemma Delivered(i: nat)
      requires Valid() && i < |conn.w.rcv.got|
      ensures var (sent, d) := (NonEmpty(queued), conn.w.rcv.got[i]);
              i < |sent| && d.data == Truncated(sent[i], d.len)
    {
      hide Connection.Valid, SendMsgCtrl.Holds, SendMsgCtrl.Tracks, NonEmpty, Truncated;
      conn.MessagesArrive(i);
      NonEmptyOfBoth(queued[..taken], queued[taken..]);
      assert queued == queued[..taken] + queued[taken..];
    }
  }

  lemma LogKept(w: World, e: Event, w': World, isn: int)
    requires Inv(w) && ComesTo(w, e, w', isn) && !e.Write? && !e.WriteMsg?
    ensures w'.snd.log == w.snd.log
  {
    hide Inv, Next;
    if w' != w {
      if step :| MayBe(e, step, isn) && Next(w, step, w') {
        StepKeepsLog(w, step, w');
      } else {
        var len, w1 :| ReadsMsg(w, len, w1, w');
        OnlyReads(w, len, w1, w');
      }
    }
  }
}
