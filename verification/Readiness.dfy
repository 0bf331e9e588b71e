/** When the ready sets of the polls agree with the buffers of a connected socket
    (udt4/src/core.cpp:1115-1119, 1199-1203, 1305-1309, 1356-1367, 1809, 2066, 2671-2699). */
module Readiness {
  import opened Epolls
  import opened Packets
  import opened ReceiverSpec

  /** What a socket has to offer: room in the send buffer, acknowledged data that has not been read,
      an acknowledged message. */
  datatype Offer = Offer(isStream: bool, room: bool, data: bool, msg: bool)

  /** In the polls that watch it the socket is write-ready exactly when there is room; a stream is
      read-ready exactly when there is data; an acknowledged message makes it read-ready. */
  predicate InPoll(p: Poll, id: SocketId, o: Offer) {
    && (id in p.writable <==> id in p.outs && o.room)
    && (id in p.readable ==> id in p.ins)
    && (o.isStream ==> (id in p.readable <==> id in p.ins && o.data))
    && (!o.isStream && o.msg && id in p.ins ==> id in p.readable)
  }

  predicate NotInPoll(p: Poll, id: SocketId) {
    id !in p.ins && id !in p.outs && id !in p.readable && id !in p.writable
  }

  ghost predicate Agree(polls: map<int, Poll>, eids: set<int>, id: SocketId, o: Offer) {
    forall e :: e in polls ==> if e in eids then InPoll(polls[e], id, o) else NotInPoll(polls[e], id)
  }

  /** Nothing that matters to a poll has changed. */
  predicate SameOffer(o: Offer, o': Offer) {
    && o'.isStream == o.isStream && o'.room == o.room
    && (o.isStream ==> o'.data == o.data)
    && (!o.isStream ==> (o'.msg ==> o.msg))
  }

  lemma NothingToTell(polls: map<int, Poll>, eids: set<int>, id: SocketId, o: Offer, o': Offer)
    requires Agree(polls, eids, id, o) && SameOffer(o, o')
    ensures Agree(polls, eids, id, o')
  {
    forall e | e in polls ensures if e in eids then InPoll(polls[e], id, o') else NotInPoll(polls[e], id) {
    }
  }

  lemma NotYetWatched(polls: map<int, Poll>, id: SocketId, o: Offer)
    requires forall e :: e in polls ==> NotInPoll(polls[e], id)
    ensures Agree(polls, {}, id, o)
  {
  }

  lemma AfterEnableWrite(polls: map<int, Poll>, eids: set<int>, id: SocketId, o: Offer)
    requires Agree(polls, eids, id, o)
    ensures Agree(Changed(polls, eids, WriteOn, id), eids * polls.Keys, id, o.(room := true))
  {
    forall e | e in polls && e in eids ensures InPoll(Applied(polls[e], WriteOn, id), id, o.(room := true)) {
    }
  }

  lemma AfterDisableWrite(polls: map<int, Poll>, eids: set<int>, id: SocketId, o: Offer)
    requires Agree(polls, eids, id, o)
    ensures Agree(Changed(polls, eids, WriteOff, id), eids * polls.Keys, id, o.(room := false))
  {
    forall e | e in polls && e in eids ensures InPoll(Applied(polls[e], WriteOff, id), id, o.(room := false)) {
    }
  }

  lemma AfterEnableRead(polls: map<int, Poll>, eids: set<int>, id: SocketId, o: Offer, msg: bool)
    requires Agree(polls, eids, id, o)
    ensures Agree(Changed(polls, eids, ReadOn, id), eids * polls.Keys, id, o.(data := true, msg := msg))
  {
    forall e | e in polls && e in eids ensures InPoll(Applied(polls[e], ReadOn, id), id, o.(data := true, msg := msg)) {
    }
  }

  lemma AfterDisableRead(polls: map<int, Poll>, eids: set<int>, id: SocketId, o: Offer)
    requires Agree(polls, eids, id, o)
    ensures Agree(Changed(polls, eids, ReadOff, id), eids * polls.Keys, id, o.(data := false, msg := false))
  {
    forall e | e in polls && e in eids
      ensures InPoll(Applied(polls[e], ReadOff, id), id, o.(data := false, msg := false))
    {
    }
  }

  /** In poll `eid` the socket may be newly watched and its readiness not yet known. */
  ghost predicate AgreeBut(polls: map<int, Poll>, eids: set<int>, eid: int, id: SocketId, o: Offer) {
    forall e :: e in polls ==>
      if e == eid then Uncertain(polls[e], id, o)
      else if e in eids then InPoll(polls[e], id, o) else NotInPoll(polls[e], id)
  }

  predicate Uncertain(p: Poll, id: SocketId, o: Offer) {
    && (id in p.writable ==> id in p.outs && o.room)
    && (id in p.readable ==> id in p.ins && (o.isStream ==> o.data))
  }

  lemma AfterWatch(polls: map<int, Poll>, eids: set<int>, id: SocketId, o: Offer, eid: int, ev: Events)
    requires Agree(polls, eids, id, o) && eid in polls
    ensures AgreeBut(polls[eid := Watched(polls[eid], id, ev)], eids + {eid}, eid, id, o)
  {
  }

  /** `addEPoll` reports what the buffers have to offer at the time. */
  lemma AfterAdd(polls: map<int, Poll>, eids: set<int>, eid: int, id: SocketId, o: Offer, read: bool)
    requires AgreeBut(polls, eids, eid, id, o) && eid in eids
    requires if o.isStream then read == o.data else o.msg ==> read
    ensures var polls1 := if read then Changed(polls, eids, ReadOn, id) else polls;
            var eids1 := if read then eids * polls.Keys else eids;
            var polls2 := if o.room then Changed(polls1, eids1, WriteOn, id) else polls1;
            var eids2 := if o.room then eids1 * polls1.Keys else eids1;
            Agree(polls2, eids2, id, o)
  {
    var polls1 := if read then Changed(polls, eids, ReadOn, id) else polls;
    var eids1 := if read then eids * polls.Keys else eids;
    forall e | e in polls && e in eids
      ensures var p1 := if read then Applied(polls[e], ReadOn, id) else polls[e];
              InPoll(if o.room then Applied(p1, WriteOn, id) else p1, id, o)
    {
    }
  }

  /** Readiness may differ, interest does not. */
  predicate SameWatch(polls: map<int, Poll>, polls': map<int, Poll>) {
    && polls.Keys == polls'.Keys
    && forall e :: e in polls ==> polls[e].ins == polls'[e].ins && polls[e].outs == polls'[e].outs
  }

  lemma ReportsKeepWatch(polls: map<int, Poll>, eids: set<int>, c: Change, id: SocketId)
    ensures SameWatch(polls, Changed(polls, eids, c, id))
  {
  }

  lemma NothingToTellBut(polls: map<int, Poll>, eids: set<int>, eid: int, id: SocketId, o: Offer, o': Offer)
    requires AgreeBut(polls, eids, eid, id, o) && SameOffer(o, o')
    ensures AgreeBut(polls, eids, eid, id, o')
  {
    forall e | e in polls && e != eid ensures if e in eids then InPoll(polls[e], id, o') else NotInPoll(polls[e], id) {
    }
  }

  /** What becomes of the polls when a socket in the polls `eids` is removed from poll `eid`: `removeEPoll`
      first forgets the poll and then clears the readiness in the polls that are left. */
  function AfterLeaving(polls: map<int, Poll>, eids: set<int>, eid: int, id: SocketId): map<int, Poll> {
    var left := eids - {eid};
    var quiet := Changed(Changed(polls, left, ReadOff, id), left * polls.Keys, WriteOff, id);
    if eid in quiet then quiet[eid := Forgotten(quiet[eid], id)] else quiet
  }

  /** Poll `p` should report the socket. */
  predicate ShouldReport(p: Poll, id: SocketId, o: Offer) {
    (id in p.outs && o.room) || (id in p.ins && if o.isStream then o.data else o.msg)
  }

  /** After the removal the polls agree with the buffers if and only if no poll that is left should report
      the socket. */
  lemma AfterRemove(polls: map<int, Poll>, eids: set<int>, id: SocketId, o: Offer, eid: int)
    requires Agree(polls, eids, id, o)
    ensures Agree(AfterLeaving(polls, eids, eid, id), (eids - {eid}) * polls.Keys, id, o) <==>
            forall e :: e in polls && e in eids && e != eid ==> !ShouldReport(polls[e], id, o)
  {
    var left, polls' := eids - {eid}, AfterLeaving(polls, eids, eid, id);
    assert polls'.Keys == polls.Keys;
    forall e | e in polls && e in left
      ensures polls'[e] == polls[e].(readable := polls[e].readable - {id}, writable := polls[e].writable - {id})
      ensures InPoll(polls'[e], id, o) <==> !ShouldReport(polls[e], id, o)
    {
    }
    forall e | e in polls && e !in left ensures NotInPoll(polls'[e], id) {
    }
  }

  /** So a socket in two polls is no longer reported by the other one although it is ready. */
  lemma RemovalSilencesOtherPolls(id: SocketId, o: Offer) returns (polls: map<int, Poll>, eids: set<int>)
    requires o.isStream && o.room && o.data
    ensures 1 in eids && Agree(polls, eids, id, o) && !Agree(AfterLeaving(polls, eids, 1, id), eids - {1}, id, o)
  {
    var p := Poll({id}, {id}, {id}, {id});
    polls, eids := map[1 := p, 2 := p], {1, 2};
    AfterRemove(polls, eids, id, o, 1);
    assert (eids - {1}) * polls.Keys == eids - {1};
    assert 2 in polls && 2 in eids && ShouldReport(polls[2], id, o);
  }

  lemma LeavingConcernsOnly(polls: map<int, Poll>, eids: set<int>, eid: int, id: SocketId)
    ensures SameButFor(polls, AfterLeaving(polls, eids, eid, id), id)
  {
  }

  /** What is said of one socket does not depend on the others. */
  lemma OthersStillAgree(polls: map<int, Poll>, polls': map<int, Poll>, u: SocketId, eids: set<int>, id: SocketId,
                         o: Offer)
    requires Agree(polls, eids, id, o) && SameButFor(polls, polls', u) && u != id
    ensures Agree(polls', eids, id, o)
  {
    forall e | e in polls' ensures if e in eids then InPoll(polls'[e], id, o) else NotInPoll(polls'[e], id) {
      SaysTheSame(polls[e], polls'[e], u, id);
    }
  }

  lemma SaysTheSame(p: Poll, p': Poll, u: SocketId, id: SocketId)
    requires Forgotten(p, u) == Forgotten(p', u) && id != u
    ensures id in p.ins <==> id in p'.ins
    ensures id in p.outs <==> id in p'.outs
    ensures id in p.readable <==> id in p'.readable
    ensures id in p.writable <==> id in p'.writable
  {
    assert id in p.ins <==> id in Forgotten(p, u).ins;
    assert id in p.outs <==> id in Forgotten(p, u).outs;
    assert id in p.readable <==> id in Forgotten(p, u).readable;
    assert id in p.writable <==> id in Forgotten(p, u).writable;
  }

  // ----- messages

  /** A message lies unread within the acknowledged part. */
  ghost predicate AckedMessage(r: Rcv) {
    exists p, q :: Whole(r, p, q) && q < r.lastAck
  }

  /** Whenever `recvmsg` would return an in-order message, every poll that watches the socket for reading
      reports it. */
  lemma InOrderMessageIsReported(polls: map<int, Poll>, eids: set<int>, id: SocketId, o: Offer, r: Rcv, p: int, q: int)
    requires Agree(polls, eids, id, o) && !o.isStream && o.msg == AckedMessage(r)
    requires Deliverable(r, p, q) && q in r.stored && InOrder(r.stored[q])
    ensures forall e :: e in polls && e in eids && id in polls[e].ins ==> id in polls[e].readable
  {
    assert AckedMessage(r);
  }
}
