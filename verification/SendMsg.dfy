/** The server's queues of outgoing messages (server_udt/send_msg_buf.cpp and
    server_udt/send_msg_ctrl.cpp): one queue for each socket, and interest in writing for as long as
    its queue is not empty. */
module SendMsg {
  import opened Packets
  import opened SenderSpec
  import opened ReceiverSpec
  import opened RcvBuffers
  import opened Senders
  import opened Receivers
  import opened Epolls
  import opened Readiness
  import opened Sockets

  type Payload = seq<Byte>

  class SendMsgBuf {
    var queues: map<SocketId, seq<Payload>>

    /** There is no entry for an empty queue. */
    ghost predicate Valid()
      reads this
    {
      forall u :: u in queues ==> queues[u] != []
    }

    ghost function Queue(u: SocketId): seq<Payload>
      reads this
    {
      if u in queues then queues[u] else []
    }

    /** All queues but one. */
    ghost function Others(u: SocketId): map<SocketId, seq<Payload>>
      reads this
    {
      queues - {u}
    }

    constructor ()
      ensures Valid() && queues == map[]
    {
      queues := map[];
    }

    method HasMsg(u: SocketId) returns (has: bool)
      requires Valid()
      ensures has == (Queue(u) != [])
    {
      return u in queues && |queues[u]| > 0;
    }

    method PeekFrontMsg(u: SocketId) returns (msg: Option<Payload>)
      requires Valid()
      ensures msg == if Queue(u) == [] then None else Some(Queue(u)[0])
    {
      return if u in queues && |queues[u]| > 0 then Some(queues[u][0]) else None;
    }

    method PopMsg(u: SocketId)
      requires Valid()
      modifies this
      ensures Valid() && Queue(u) == if old(Queue(u)) == [] then [] else old(Queue(u))[1..]
      ensures Others(u) == old(Others(u))
    {
      if u in queues {
        if |queues[u]| > 0 {
          queues := queues[u := queues[u][1..]];
        }
        if |queues[u]| == 0 {
          queues := queues - {u};
        }
      }
    }

    method AddMsg(u: SocketId, msg: Payload)
      requires Valid()
      modifies this
      ensures Valid() && Queue(u) == old(Queue(u)) + [msg]
      ensures Others(u) == old(Others(u))
    {
      queues := queues[u := (if u in queues then queues[u] else []) + [msg]];
    }

    method CleanMsg(u: SocketId)
      requires Valid()
      modifies this
      ensures Valid() && Queue(u) == []
      ensures Others(u) == old(Others(u))
    {
      queues := queues - {u};
    }

    method CleanAllMsg()
      modifies this
      ensures Valid() && forall u :: Queue(u) == []
    {
      queues := map[];
    }
  }

  const READ_EVENT: Events := Events(true, false)
  const WRITE_EVENT: Events := Events(true, true)

  /** What the control and the poll know about one socket, and what it has sent. */
  datatype View = View(
    wanted: bool, queue: seq<Payload>, reading: bool, writing: bool, pollIds: set<int>, snd: Snd, limit: int)

  /** The control wants to write exactly while messages are queued, and the poll watches the socket for just
      that. */
  predicate InStep(v: View, eid: int) {
    Enlisted(v, eid) && (v.wanted <==> v.queue != [])
  }

  predicate Enlisted(v: View, eid: int) {
    v.pollIds == {eid} && v.reading && (v.wanted <==> v.writing)
  }

  /** The sender after these messages have been sent, in order; empty ones are skipped. */
  ghost function SentAll(s: Snd, msgs: seq<Payload>): (s': Snd)
    requires s.mss > 0
    ensures s'.mss == s.mss
  {
    if msgs == [] then s
    else
      var s1 := SentAll(s, msgs[..|msgs| - 1]);
      if msgs[|msgs| - 1] == [] then s1 else UserSend(s1, msgs[|msgs| - 1], true)
  }

  function NonEmpty(msgs: seq<Payload>): seq<Payload> {
    if msgs == [] then []
    else NonEmpty(msgs[..|msgs| - 1]) + if msgs[|msgs| - 1] == [] then [] else [msgs[|msgs| - 1]]
  }

  /** The log has grown by exactly these messages, each of them marked in order. */
  ghost predicate GrownBy(log: seq<Message>, log': seq<Message>, sent: seq<Payload>) {
    && |log'| == |log| + |sent| && log'[..|log|] == log
    && (forall i :: 0 <= i < |sent| ==> log'[|log| + i].data == sent[i] && log'[|log| + i].inOrder)
  }

  /** Nothing is lost, duplicated or reordered on the way from the queue to the sender, and every
      message is sent in order. */
  lemma {:induction false} SentInOrder(s: Snd, msgs: seq<Payload>)
    requires s.mss > 0
    ensures GrownBy(s.log, SentAll(s, msgs).log, NonEmpty(msgs))
  {
    if msgs == [] {
      assert s.log[..|s.log|] == s.log;
    } else {
      var front, m := msgs[..|msgs| - 1], msgs[|msgs| - 1];
      SentInOrder(s, front);
      if m != [] {
        GrownByOne(s.log, SentAll(s, front).log, NonEmpty(front), Message(m, SentAll(s, front).nextNo, true));
      } else {
        assert NonEmpty(msgs) == NonEmpty(front);
      }
    }
  }

  lemma GrownByOne(log: seq<Message>, log1: seq<Message>, sent1: seq<Payload>, m: Message)
    requires GrownBy(log, log1, sent1) && m.inOrder
    ensures GrownBy(log, log1 + [m], sent1 + [m.data])
  {
    var log' := log1 + [m];
    forall i | 0 <= i < |sent1|
      ensures log'[|log| + i].data == sent1[i] && log'[|log| + i].inOrder
    {
      assert log'[|log| + i] == log1[|log| + i];
    }
    assert log'[|log| + |sent1|] == m;
    assert log'[..|log|] == log1[..|log|];
  }

  lemma SentNothing(s: Snd, q: seq<Payload>)
    requires s.mss > 0
    ensures SentAll(s, q[..0]) == s && q[0..] == q
  {
  }

  lemma SentOneMore(s: Snd, q: seq<Payload>, k: nat)
    requires s.mss > 0 && k < |q|
    ensures SentAll(s, q[..k + 1]) ==
            if q[k] == [] then SentAll(s, q[..k]) else UserSend(SentAll(s, q[..k]), q[k], true)
  {
    assert q[..k + 1][..k] == q[..k];
  }

  lemma UserSendKeepsOrder(s: Snd, size: int, data: seq<Byte>, inOrder: bool)
    requires Ordered(s, size) && s.mss > 0
    ensures Ordered(UserSend(s, data, inOrder), size)
  {
  }

  datatype Outcome = Drained | Blocked | Failed

  class SendMsgCtrl {
    const eid: int
    const buf: SendMsgBuf
    var eventsWithWrite: set<SocketId>

    /** The socket is whole and separate from the control. */
    ghost predicate Holds(sock: Socket)
      reads buf, sock, sock.epoll, sock.sender, sock.sender.Lists(), sock.sender.buffer, sock.sender.Areas()
      reads sock.receiver, sock.receiver.Lists(), sock.receiver.Acks(), sock.receiver.buffer.units,
        sock.receiver.Slots()
    {
      && sock.Valid() && !sock.isStream && this !in sock.Repr() && buf !in sock.Repr() && buf.Valid()
      && MessagesInOrder(sock.receiver.r) && Ordered(sock.sender.s, sock.sender.size)
    }

    ghost function ViewOf(sock: Socket): View
      reads this, buf, sock, sock.epoll, sock.sender
    {
      var polls := sock.epoll.polls;
      View(sock.id in eventsWithWrite, buf.Queue(sock.id), eid in polls && sock.id in polls[eid].ins,
           eid in polls && sock.id in polls[eid].outs, sock.pollIds, sock.sender.s, sock.sndBufSize)
    }

    ghost predicate Tracks(sock: Socket)
      reads this, buf, sock, sock.epoll, sock.sender
    {
      InStep(ViewOf(sock), eid)
    }

    constructor (eid: int)
      ensures this.eid == eid && buf.Valid() && fresh(buf) && eventsWithWrite == {} && forall u :: buf.Queue(u) == []
    {
      this.eid := eid;
      buf := new SendMsgBuf();
      eventsWithWrite := {};
    }

    /** Queue a message and, with the first one, start to watch for a chance to write. */
    method AddMsgToSendBuf(sock: Socket, msg: Payload)
      requires Holds(sock) && Tracks(sock)
      modifies this`eventsWithWrite, buf
      modifies sock.receiver`r, sock.receiver.buffer`startPos, sock.receiver.buffer`base
      modifies sock.receiver.buffer`taken, sock.receiver.buffer`cells
      modifies sock.receiver.buffer.units, sock.receiver.buffer.Units()`flag, sock.epoll`polls, sock`pollIds
      ensures Holds(sock) && Tracks(sock) && sock.sender.s == old(sock.sender.s)
      ensures buf.Queue(sock.id) == old(buf.Queue(sock.id)) + [msg]
      ensures buf.Others(sock.id) == old(buf.Others(sock.id))
      ensures eventsWithWrite == old(eventsWithWrite) + {sock.id}
      ensures SameButFor(old(sock.epoll.polls), sock.epoll.polls, sock.id) && sock.Repr() <= old(sock.Repr())
    {
      hide Holds, SameButFor, Socket.Repr;
      SameForAll(sock.epoll.polls, sock.id);
      Enqueue(sock, msg);
      if sock.id !in eventsWithWrite {
        NoteWrite(sock, true);
        DoWatch(sock, WRITE_EVENT);
        NowWatched(old(sock.epoll.polls), sock.epoll.polls, eid, sock.id, WRITE_EVENT);
      }
    }

    // Single calls, each of which leaves the socket whole.

    method Enqueue(sock: Socket, msg: Payload)
      requires Holds(sock)
      modifies buf
      ensures Holds(sock) && buf.Queue(sock.id) == old(buf.Queue(sock.id)) + [msg]
      ensures buf.Others(sock.id) == old(buf.Others(sock.id))
    {
      hide Socket.Valid, Socket.Repr, MessagesInOrder, Ordered;
      sock.ReprIsThere();
      buf.AddMsg(sock.id, msg);
      sock.Unaffected();
    }

    method NoteWrite(sock: Socket, on: bool)
      requires Holds(sock)
      modifies this`eventsWithWrite
      ensures Holds(sock)
      ensures eventsWithWrite == if on then old(eventsWithWrite) + {sock.id} else old(eventsWithWrite) - {sock.id}
    {
      hide Socket.Valid, MessagesInOrder, Ordered;
      eventsWithWrite := if on then eventsWithWrite + {sock.id} else eventsWithWrite - {sock.id};
    }

    method DoWatch(sock: Socket, ev: Events)
      requires Holds(sock) && eid in sock.epoll.polls
      modifies sock.receiver`r, sock.receiver.buffer`startPos, sock.receiver.buffer`base
      modifies sock.receiver.buffer`taken, sock.receiver.buffer`cells
      modifies sock.receiver.buffer.units, sock.receiver.buffer.Units()`flag, sock.epoll`polls, sock`pollIds
      ensures Holds(sock) && sock.sender.s == old(sock.sender.s) && unchanged(buf)
      ensures eid in sock.pollIds && sock.pollIds <= old(sock.pollIds) + {eid}
      ensures SameButFor(old(sock.epoll.polls), sock.epoll.polls, sock.id) && sock.Repr() <= old(sock.Repr())
      ensures SameWatch(old(sock.epoll.polls)[eid := Watched(old(sock.epoll.polls)[eid], sock.id, ev)],
                        sock.epoll.polls)
    {
      hide Socket.Valid, MessagesInOrder, Ordered, SameWatch, SkipTaken, SameButFor;
      SkipKeepsMessages(sock.receiver.r);
      var ok := sock.Watch(eid, ev);
    }

    method DoUnwatch(sock: Socket)
      requires Holds(sock) && sock.pollIds <= {eid}
      modifies sock.epoll`polls, sock`pollIds
      ensures Holds(sock) && sock.pollIds == {} && unchanged(buf)
      ensures sock.epoll.polls == Without(old(sock.epoll.polls), eid, sock.id)
      ensures SameButFor(old(sock.epoll.polls), sock.epoll.polls, sock.id) && sock.Repr() == old(sock.Repr())
    {
      hide Socket.Valid, MessagesInOrder, Ordered, SameButFor, ShouldReport, AfterLeaving, Without, Socket.Built,
        Socket.Offers;
      LeavesTheOnlyPoll(sock.epoll.polls, sock.pollIds, eid, sock.id);
      sock.Unwatch(eid);
    }

    method DoSend(sock: Socket, msg: Payload) returns (res: SendResult)
      requires Holds(sock)
      modifies sock.sender`s, sock.sender.Areas(), sock.epoll`polls, sock`pollIds
      ensures Holds(sock) && fresh(sock.sender.Areas() - old(sock.sender.Areas())) && unchanged(buf)
      ensures res == Accepted <==> 0 < |msg| <= Room(old(sock.sender.s), sock.sndBufSize)
      ensures sock.sender.s == if res == Accepted then UserSend(old(sock.sender.s), msg, true) else old(sock.sender.s)
      ensures res == TooLarge <==> |msg| > sock.sndBufSize * sock.sender.s.mss
      ensures res == NothingToSend <==> msg == []
      ensures sock.SameInterest() && res != WrongType
      ensures SameButFor(old(sock.epoll.polls), sock.epoll.polls, sock.id) && fresh(sock.Repr() - old(sock.Repr()))
      ensures sock.receiver.buffer.Units() == old(sock.receiver.buffer.Units())
    {
      hide Socket.Valid, MessagesInOrder, Ordered, SameWatch, UserSend, Room, Socket.Repr, SameButFor;
      MssPositive(sock);
      UserSendKeepsOrder(sock.sender.s, sock.sender.size, msg, true);
      res := sock.SendMsg(msg, true);
    }

    method Dequeue(sock: Socket)
      requires Holds(sock) && buf.Queue(sock.id) != []
      modifies buf
      ensures Holds(sock) && buf.Queue(sock.id) == old(buf.Queue(sock.id))[1..] && sock.Repr() == old(sock.Repr())
      ensures buf.Others(sock.id) == old(buf.Others(sock.id))
    {
      hide Socket.Valid, Socket.Repr, MessagesInOrder, Ordered;
      sock.ReprIsThere();
      buf.PopMsg(sock.id);
      sock.Unaffected();
    }

    method CleanMsg(sock: Socket)
      requires Holds(sock)
      modifies buf
      ensures Holds(sock) && buf.Queue(sock.id) == []
      ensures buf.Others(sock.id) == old(buf.Others(sock.id))
    {
      hide Socket.Valid, Socket.Repr, MessagesInOrder, Ordered;
      sock.ReprIsThere();
      buf.CleanMsg(sock.id);
      sock.Unaffected();
    }

    /** Nothing is queued any more: keep watching the socket for reading only. */
    method TryRemoveWriteEvent(sock: Socket)
      requires Holds(sock) && Enlisted(ViewOf(sock), eid)
      requires buf.Queue(sock.id) == []
      modifies this`eventsWithWrite
      modifies sock.receiver`r, sock.receiver.buffer`startPos, sock.receiver.buffer`base
      modifies sock.receiver.buffer`taken, sock.receiver.buffer`cells
      modifies sock.receiver.buffer.units, sock.receiver.buffer.Units()`flag, sock.epoll`polls, sock`pollIds
      ensures Holds(sock) && Tracks(sock) && unchanged(buf) && sock.sender.s == old(sock.sender.s)
      ensures eventsWithWrite == old(eventsWithWrite) - {sock.id}
      ensures SameButFor(old(sock.epoll.polls), sock.epoll.polls, sock.id) && sock.Repr() <= old(sock.Repr())
    {
      hide Holds, SameButFor, Socket.Repr;
      SameForAll(sock.epoll.polls, sock.id);
      if sock.id in eventsWithWrite {
        NoteWrite(sock, false);
        DoUnwatch(sock);
        ghost var polls := sock.epoll.polls;
        DoWatch(sock, READ_EVENT);
        SameTwice(old(sock.epoll.polls), polls, sock.epoll.polls, sock.id);
        NowWatched(polls, sock.epoll.polls, eid, sock.id, READ_EVENT);
      }
    }

    /** A message can never be sent: give the socket up. */
    method HandleSendMsgError(sock: Socket)
      requires Holds(sock) && sock.pollIds == {eid}
      modifies this`eventsWithWrite, buf, sock.epoll`polls, sock`pollIds
      ensures Holds(sock) && sock.pollIds == {} && buf.Queue(sock.id) == []
      ensures buf.Others(sock.id) == old(buf.Others(sock.id))
      ensures eventsWithWrite == old(eventsWithWrite) - {sock.id}
      ensures SameButFor(old(sock.epoll.polls), sock.epoll.polls, sock.id) && sock.Repr() == old(sock.Repr())
    {
      hide Holds, SameButFor, Socket.Repr;
      DoUnwatch(sock);
      CleanMsg(sock);
      NoteWrite(sock, false);
    }

    /** Send queued messages, the oldest first, until the queue is empty or the socket takes no more.
        The first `k` messages have been sent. */
    method TrySendMsgOfOneSock(sock: Socket) returns (outcome: Outcome, ghost k: nat)
      requires Holds(sock) && Tracks(sock)
      modifies this`eventsWithWrite, buf, sock.sender`s, sock.sender.Areas()
      modifies sock.receiver`r, sock.receiver.buffer`startPos, sock.receiver.buffer`base
      modifies sock.receiver.buffer`taken, sock.receiver.buffer`cells
      modifies sock.receiver.buffer.units, sock.receiver.buffer.Units()`flag, sock.epoll`polls, sock`pollIds
      ensures Holds(sock) && Finished(ViewOf(sock), eid, old(sock.sender.s), old(buf.Queue(sock.id)), k, outcome)
      ensures buf.Others(sock.id) == old(buf.Others(sock.id))
      ensures eventsWithWrite - {sock.id} == old(eventsWithWrite) - {sock.id}
      ensures SameButFor(old(sock.epoll.polls), sock.epoll.polls, sock.id) && fresh(sock.Repr() - old(sock.Repr()))
    {
      hide Holds, Underway, Finished, RcvBuffer.Units, SameButFor, Socket.Repr;
      SameForAll(sock.epoll.polls, sock.id);
      ghost var q, s0 := buf.Queue(sock.id), sock.sender.s;
      k := 0;
      MssPositive(sock);
      Starting(ViewOf(sock), eid);
      var done: Option<Outcome> := None;
      while done.None?
        invariant Holds(sock) && k <= |q|
        invariant if done.None? then Underway(ViewOf(sock), eid, s0, q, k)
                  else Finished(ViewOf(sock), eid, s0, q, k, done.value)
        invariant done.None? ==> fresh(sock.sender.Areas() - old(sock.sender.Areas()))
        invariant done.None? ==> sock.receiver.buffer.Units() <= old(sock.receiver.buffer.Units())
        invariant buf.Others(sock.id) == old(buf.Others(sock.id))
        invariant eventsWithWrite - {sock.id} == old(eventsWithWrite) - {sock.id}
        invariant SameButFor(old(sock.epoll.polls), sock.epoll.polls, sock.id) && fresh(sock.Repr() - old(sock.Repr()))
        decreases done.None?, |q| - k
      {
        ghost var polls, repr := sock.epoll.polls, sock.Repr();
        done := SendNext(sock, s0, q, k);
        SameTwice(old(sock.epoll.polls), polls, sock.epoll.polls, sock.id);
        assert sock.Repr() - old(sock.Repr()) <= (sock.Repr() - repr) + (repr - old(sock.Repr()));
        if done.None? {
          k := k + 1;
        }
      }
      return done.value, k;
    }

    /** One round of the loop: send the next message, or stop. */
    method SendNext(sock: Socket, ghost s0: Snd, ghost q: seq<Payload>, ghost k: nat) returns (done: Option<Outcome>)
      requires Holds(sock) && Underway(ViewOf(sock), eid, s0, q, k)
      modifies this`eventsWithWrite, buf, sock.sender`s, sock.sender.Areas()
      modifies sock.receiver`r, sock.receiver.buffer`startPos, sock.receiver.buffer`base
      modifies sock.receiver.buffer`taken, sock.receiver.buffer`cells
      modifies sock.receiver.buffer.units, sock.receiver.buffer.Units()`flag, sock.epoll`polls, sock`pollIds
      ensures Holds(sock)
      ensures if done.None? then k < |q| && Underway(ViewOf(sock), eid, s0, q, k + 1)
              else Finished(ViewOf(sock), eid, s0, q, k, done.value)
      ensures done.None? ==> fresh(sock.sender.Areas() - old(sock.sender.Areas()))
      ensures done.None? ==> sock.receiver.buffer.Units() <= old(sock.receiver.buffer.Units())
      ensures buf.Others(sock.id) == old(buf.Others(sock.id))
      ensures eventsWithWrite - {sock.id} == old(eventsWithWrite) - {sock.id}
      ensures SameButFor(old(sock.epoll.polls), sock.epoll.polls, sock.id) && fresh(sock.Repr() - old(sock.Repr()))
    {
      hide Holds, Underway, Finished, InStep, Enlisted, SentAll, Room, RcvBuffer.Units, SameButFor, Socket.Repr;
      var msg := Peek(sock);
      UnderwayMeans(ViewOf(sock), eid, s0, q, k);
      if msg.None? {
        TryRemoveWriteEvent(sock);
        AllSent(ViewOf(sock), eid, s0, q, k);
        return Some(Drained);
      }
      label before:
      ghost var was := sock.Repr();
      done := TryFront(sock, msg.value, s0, q, k);
      ghost var added := sock.Repr() - was;
      assert fresh@before(added);
      forall o: object | o in sock.Repr() && o !in old(sock.Repr()) ensures fresh(o) {
        assert o in added;
      }
    }

    /** Offer the oldest message to the socket; stop when it does not take it. */
    method TryFront(sock: Socket, msg: Payload, ghost s0: Snd, ghost q: seq<Payload>, ghost k: nat)
      returns (done: Option<Outcome>)
      requires Holds(sock) && Underway(ViewOf(sock), eid, s0, q, k) && k < |q| && msg == q[k]
      modifies this`eventsWithWrite, buf, sock.sender`s, sock.sender.Areas(), sock.epoll`polls, sock`pollIds
      ensures Holds(sock)
      ensures if done.None? then Underway(ViewOf(sock), eid, s0, q, k + 1)
              else Finished(ViewOf(sock), eid, s0, q, k, done.value)
      ensures done.None? ==> fresh(sock.sender.Areas() - old(sock.sender.Areas()))
      ensures sock.receiver.buffer.Units() == old(sock.receiver.buffer.Units())
      ensures buf.Others(sock.id) == old(buf.Others(sock.id))
      ensures eventsWithWrite - {sock.id} == old(eventsWithWrite) - {sock.id}
      ensures SameButFor(old(sock.epoll.polls), sock.epoll.polls, sock.id) && fresh(sock.Repr() - old(sock.Repr()))
    {
      hide Holds, SentAll, Room, RcvBuffer.Units, SameButFor, Socket.Repr;
      var res := SendFront(sock, msg, s0, q, k);
      ghost var polls := sock.epoll.polls;
      if res == NoRoom {
        return Some(Blocked);
      }
      if res == TooLarge {
        HandleSendMsgError(sock);
        SameTwice(old(sock.epoll.polls), polls, sock.epoll.polls, sock.id);
        return Some(Failed);
      }
      return None;
    }

    /** Offer the oldest message to the socket and drop it from the queue when it has been taken. */
    method SendFront(sock: Socket, msg: Payload, ghost s0: Snd, ghost q: seq<Payload>, ghost k: nat)
      returns (res: SendResult)
      requires Holds(sock) && Underway(ViewOf(sock), eid, s0, q, k) && k < |q| && msg == q[k]
      modifies buf, sock.sender`s, sock.sender.Areas(), sock.epoll`polls, sock`pollIds
      ensures Holds(sock)
      ensures Underway(ViewOf(sock), eid, s0, q, if res == NoRoom || res == TooLarge then k else k + 1)
      ensures fresh(sock.sender.Areas() - old(sock.sender.Areas()))
      ensures sock.receiver.buffer.Units() == old(sock.receiver.buffer.Units())
      ensures res == NoRoom ==> Room(sock.sender.s, sock.sndBufSize) < |msg| <= sock.sndBufSize * sock.sender.s.mss
      ensures res == TooLarge ==> |msg| > sock.sndBufSize * sock.sender.s.mss
      ensures buf.Others(sock.id) == old(buf.Others(sock.id)) && eventsWithWrite == old(eventsWithWrite)
      ensures SameButFor(old(sock.epoll.polls), sock.epoll.polls, sock.id) && fresh(sock.Repr() - old(sock.Repr()))
    {
      hide Holds, Underway, UserSend, SentAll, Room, SameWatch, SameButFor, Socket.Repr;
      ghost var polls, v := sock.epoll.polls, ViewOf(sock);
      UnderwayMeans(v, eid, s0, q, k);
      res := DoSend(sock, msg);
      SameWatchSame(polls, sock.epoll.polls, eid);
      assert {eid} * polls.Keys == {eid};
      if res != NoRoom && res != TooLarge {
        Dequeue(sock);
        OneMore(v, eid, s0, q, k);
        assert ViewOf(sock) == v.(snd := sock.sender.s, queue := v.queue[1..]);
      } else {
        assert ViewOf(sock) == v;
      }
    }

    method Peek(sock: Socket) returns (msg: Option<Payload>)
      requires Holds(sock)
      ensures Holds(sock) && sock.Repr() == old(sock.Repr())
      ensures msg == if buf.Queue(sock.id) == [] then None else Some(buf.Queue(sock.id)[0])
    {
      hide Socket.Valid, MessagesInOrder, Ordered;
      msg := buf.PeekFrontMsg(sock.id);
    }

    // ----- several sockets

    /** Two sockets share the polls and nothing else. */
    ghost predicate Separate(s: Socket, t: Socket)
      reads s.sender.buffer, s.receiver.buffer.units, t.sender.buffer, t.receiver.buffer.units
    {
      s.id != t.id && s.epoll == t.epoll && s.Repr() !! t.Repr() - {t.epoll}
    }

    /** All sockets of a server. */
    ghost predicate Serves(socks: set<Socket>)
      reads *
    {
      && (forall s <- socks :: Holds(s))
      && (forall s <- socks, t <- socks :: s != t ==> Separate(s, t))
    }

    /** Serve all sockets the poll reports ready for writing. */
    method TrySendMsg(writefds: seq<Socket>, ghost all: set<Socket>)
      requires Serves(all) && forall s <- all :: Tracks(s)
      requires forall i :: 0 <= i < |writefds| ==> writefds[i] in all && writefds[i] !in writefds[..i]
      modifies this`eventsWithWrite, buf, set s, o | s in all && o in s.Repr() :: o
      ensures Serves(all)
      ensures forall s <- all ::
        if s in writefds then Served(ViewOf(s), eid, old(ViewOf(s))) else ViewOf(s) == old(ViewOf(s))
      ensures forall s <- all :: fresh(s.Repr() - old(s.Repr()))
    {
      hide Serves, Served, InStep, Socket.Repr, ViewOf;
      for i := 0 to |writefds|
        invariant Serves(all)
        invariant forall s <- all :: s !in writefds[..i] ==> s.Repr() == old(s.Repr()) && ViewOf(s) == old(ViewOf(s))
        invariant forall s <- all :: s in writefds[..i] ==> Served(ViewOf(s), eid, old(ViewOf(s)))
        invariant forall s <- all :: fresh(s.Repr() - old(s.Repr()))
      {
        label before:
        ServeOne(writefds[i], all);
        forall s <- all ensures fresh(s.Repr() - old(s.Repr())) {
          ghost var added, more := old@before(s.Repr()) - old(s.Repr()), s.Repr() - old@before(s.Repr());
          s.ReprIsThere();
          assert fresh(added);
          assert s == writefds[i] || more == {};
          assert fresh@before(more);
          forall o: object | o in s.Repr() && o !in old(s.Repr()) ensures fresh(o) {
            assert o in added || o in more;
          }
        }
        assert writefds[..i + 1] == writefds[..i] + [writefds[i]];
      }
      assert writefds[..|writefds|] == writefds;
    }

    /** `TrySendMsgOfOneSock` for one of several sockets does not concern the others. */
    method ServeOne(sock: Socket, ghost all: set<Socket>)
      requires Serves(all) && sock in all && Tracks(sock)
      modifies this`eventsWithWrite, buf, sock.Repr()
      ensures Serves(all) && Served(ViewOf(sock), eid, old(ViewOf(sock)))
      ensures forall s <- all :: s != sock ==> s.Repr() == old(s.Repr()) && ViewOf(s) == old(ViewOf(s))
      ensures fresh(sock.Repr() - old(sock.Repr()))
    {
      hide Served, SameButFor, Socket.Repr, Socket.Valid, InStep, MessagesInOrder, Ordered, SendMsgBuf.Others;
      forall s <- all ensures forall o: object? :: o in s.Repr() ==> o != null && allocated(o) {
        s.ReprIsThere();
      }
      ghost var was := sock.Repr();
      ServeAlone(sock);
      sock.ReprIsThere();
      ghost var added := sock.Repr() - was;
      assert fresh(added);
      forall o: object | o in sock.Repr() && o !in old(sock.Repr()) ensures fresh(o) {
        assert o in added;
      }
      forall s <- all | s != sock
        ensures Holds(s) && s.Repr() == old(s.Repr()) && ViewOf(s) == old(ViewOf(s))
      {
        assert old(Separate(s, sock));
        s.StaysValid(sock.id);
        SameEntry(old(buf.queues), buf.queues, old(eventsWithWrite), eventsWithWrite, sock.id, s.id);
        SaysTheSameIn(old(s.epoll.polls), s.epoll.polls, eid, sock.id, s.id);
      }
    }

    method ServeAlone(sock: Socket)
      requires Holds(sock) && Tracks(sock)
      modifies this`eventsWithWrite, buf, sock.Repr()
      ensures Holds(sock) && Served(ViewOf(sock), eid, old(ViewOf(sock)))
      ensures buf.queues - {sock.id} == old(buf.queues) - {sock.id}
      ensures eventsWithWrite - {sock.id} == old(eventsWithWrite) - {sock.id}
      ensures SameButFor(old(sock.epoll.polls), sock.epoll.polls, sock.id) && fresh(sock.Repr() - old(sock.Repr()))
    {
      hide Holds, Finished, SameButFor, Socket.Valid, InStep;
      var outcome;
      ghost var k;
      outcome, k := TrySendMsgOfOneSock(sock);
    }

    lemma MssPositive(sock: Socket)
      requires Holds(sock)
      ensures sock.sender.s.mss > 0
    {
      hide MessagesInOrder, Ordered, Sender.Valid, Receiver.Valid;
    }
  }

  /** After the first `k` messages of the queue `q` have been sent. */
  ghost predicate Underway(v: View, eid: int, s0: Snd, q: seq<Payload>, k: nat) {
    && k <= |q| && v.queue == q[k..]
    && s0.mss > 0 && v.snd == SentAll(s0, q[..k])
    && Enlisted(v, eid) && (v.wanted <==> q != [])
  }

  /** How the loop ends when the first `k` messages of the queue `q` have been sent. */
  ghost predicate Finished(v: View, eid: int, s0: Snd, q: seq<Payload>, k: nat, outcome: Outcome) {
    && k <= |q| && s0.mss > 0 && v.snd.mss > 0 && v.snd == SentAll(s0, q[..k])
    && (outcome != Failed ==> InStep(v, eid) && v.queue == q[k..])
    && (if outcome == Drained then k == |q| else k < |q|)
    && (outcome == Blocked ==> Room(v.snd, v.limit) < |q[k]| <= v.limit * v.snd.mss)
    && (outcome == Failed ==> |q[k]| > v.limit * v.snd.mss && v.pollIds == {} && v.queue == [] && !v.wanted)
  }

  /** The loop that started in view `was` has come to its end. */
  ghost predicate Served(v: View, eid: int, was: View) {
    exists k, outcome :: Finished(v, eid, was.snd, was.queue, k, outcome)
  }

  lemma UnderwayMeans(v: View, eid: int, s0: Snd, q: seq<Payload>, k: nat)
    requires Underway(v, eid, s0, q, k)
    ensures k <= |q| && v.queue == q[k..] && Enlisted(v, eid)
    ensures s0.mss > 0 && v.snd == SentAll(s0, q[..k])
  {
  }

  lemma AllSent(v: View, eid: int, s0: Snd, q: seq<Payload>, k: nat)
    requires k <= |q| && v.queue == q[k..] == [] && InStep(v, eid) && s0.mss > 0 && v.snd == SentAll(s0, q[..k])
    ensures Finished(v, eid, s0, q, k, Drained)
  {
  }

  lemma OneMore(v: View, eid: int, s0: Snd, q: seq<Payload>, k: nat)
    requires Underway(v, eid, s0, q, k) && k < |q| && v.snd.mss > 0
    ensures var s' := if q[k] == [] then v.snd else UserSend(v.snd, q[k], true);
            v.queue != [] && Underway(v.(snd := s', queue := v.queue[1..]), eid, s0, q, k + 1)
  {
    SentOneMore(s0, q, k);
    assert q[k..][1..] == q[k + 1..];
  }

  lemma Starting(v: View, eid: int)
    requires InStep(v, eid) && v.snd.mss > 0
    ensures Underway(v, eid, v.snd, v.queue, 0)
  {
    SentNothing(v.snd, v.queue);
  }

  lemma SameWatchSame(polls: map<int, Poll>, polls': map<int, Poll>, eid: int)
    requires SameWatch(polls, polls')
    ensures eid in polls <==> eid in polls'
    ensures eid in polls ==> polls[eid].ins == polls'[eid].ins && polls[eid].outs == polls'[eid].outs
  {
  }

  lemma SaysTheSameIn(polls: map<int, Poll>, polls': map<int, Poll>, eid: int, u: SocketId, id: SocketId)
    requires SameButFor(polls, polls', u) && id != u
    ensures eid in polls <==> eid in polls'
    ensures eid in polls ==> (id in polls[eid].ins <==> id in polls'[eid].ins)
    ensures eid in polls ==> (id in polls[eid].outs <==> id in polls'[eid].outs)
  {
    if eid in polls {
      SaysTheSame(polls[eid], polls'[eid], u, id);
    }
  }

  function Without(polls: map<int, Poll>, eid: int, id: SocketId): map<int, Poll> {
    if eid in polls then polls[eid := Forgotten(polls[eid], id)] else polls
  }

  lemma SameEntry(qs: map<SocketId, seq<Payload>>, qs': map<SocketId, seq<Payload>>,
                  wanted: set<SocketId>, wanted': set<SocketId>, u: SocketId, id: SocketId)
    requires qs - {u} == qs' - {u} && wanted - {u} == wanted' - {u} && id != u
    ensures (id in qs <==> id in qs') && (id in wanted <==> id in wanted')
    ensures id in qs ==> qs[id] == qs'[id]
  {
    assert id in qs <==> id in qs - {u};
    assert id in qs' <==> id in qs' - {u};
    assert id in qs ==> (qs - {u})[id] == qs[id];
    assert id in qs' ==> (qs' - {u})[id] == qs'[id];
    assert id in wanted <==> id in wanted - {u};
    assert id in wanted' <==> id in wanted' - {u};
  }

  lemma LeavesTheOnlyPoll(polls: map<int, Poll>, eids: set<int>, eid: int, id: SocketId)
    requires eids <= {eid}
    ensures AfterLeaving(polls, eids, eid, id) == Without(polls, eid, id)
    ensures SameButFor(polls, AfterLeaving(polls, eids, eid, id), id)
  {
    LeavingConcernsOnly(polls, eids, eid, id);
    assert eids - {eid} == {};
    ChangeNone(polls, ReadOff, id);
    ChangeNone(polls, WriteOff, id);
  }

  lemma NowWatched(polls: map<int, Poll>, polls': map<int, Poll>, eid: int, id: SocketId, ev: Events)
    requires eid in polls && SameWatch(polls[eid := Watched(polls[eid], id, ev)], polls')
    ensures eid in polls' && polls'[eid].ins == Watched(polls[eid], id, ev).ins
    ensures polls'[eid].outs == Watched(polls[eid], id, ev).outs
  {
  }
}
