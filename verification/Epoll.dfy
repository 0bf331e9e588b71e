/** Interest in and readiness of sockets (udt4/src/epoll.cpp): every poll has the sets of sockets it
    watches for reading and writing, and the sets of those found ready. */
module Epolls {
  import SenderSpec

  type SocketId = int

  datatype Poll = Poll(ins: set<SocketId>, outs: set<SocketId>, readable: set<SocketId>, writable: set<SocketId>)

  const NO_SOCKETS: Poll := Poll({}, {}, {}, {})

  datatype Events = Events(read: bool, write: bool)

  function Watched(p: Poll, u: SocketId, ev: Events): Poll {
    p.(ins := if ev.read then p.ins + {u} else p.ins, outs := if ev.write then p.outs + {u} else p.outs)
  }

  function Forgotten(p: Poll, u: SocketId): Poll {
    Poll(p.ins - {u}, p.outs - {u}, p.readable - {u}, p.writable - {u})
  }

  /** What `enable_read`, `disable_read`, `enable_write` and `disable_write` do to a poll.  A socket is
      only ever ready for what it is watched for. */
  datatype Change = ReadOn | ReadOff | WriteOn | WriteOff

  function Applied(p: Poll, c: Change, u: SocketId): Poll {
    match c
    case ReadOn => if u in p.ins then p.(readable := p.readable + {u}) else p
    case ReadOff => p.(readable := p.readable - {u})
    case WriteOn => if u in p.outs then p.(writable := p.writable + {u}) else p
    case WriteOff => p.(writable := p.writable - {u})
  }

  /** A change made to the polls `eids` only. */
  function Changed(polls: map<int, Poll>, eids: set<int>, c: Change, u: SocketId): map<int, Poll> {
    map e | e in polls :: if e in eids then Applied(polls[e], c, u) else polls[e]
  }

  /** Two states of the polls that differ in what they say of socket `u` only. */
  ghost predicate SameButFor(polls: map<int, Poll>, polls': map<int, Poll>, u: SocketId) {
    polls.Keys == polls'.Keys && forall e :: e in polls ==> Forgotten(polls[e], u) == Forgotten(polls'[e], u)
  }

  lemma ChangedOnlyFor(polls: map<int, Poll>, eids: set<int>, c: Change, u: SocketId)
    ensures SameButFor(polls, Changed(polls, eids, c, u), u) && Changed(polls, eids, c, u).Keys == polls.Keys
  {
  }

  lemma EditedOnlyFor(polls: map<int, Poll>, eid: int, u: SocketId, ev: Events)
    requires eid in polls
    ensures SameButFor(polls, polls[eid := Watched(polls[eid], u, ev)], u)
    ensures SameButFor(polls, polls[eid := Forgotten(polls[eid], u)], u)
  {
  }

  lemma SameForAll(polls: map<int, Poll>, u: SocketId)
    ensures SameButFor(polls, polls, u)
  {
  }

  lemma SameTwice(a: map<int, Poll>, b: map<int, Poll>, c: map<int, Poll>, u: SocketId)
    requires SameButFor(a, b, u) && SameButFor(b, c, u)
    ensures SameButFor(a, c, u)
  {
  }

  // ----- what a poll says, from everything that ever happened to it

  datatype PollOp = Watch(who: SocketId, ev: Events) | Forget(gone: SocketId) | Tell(about: SocketId, c: Change)

  function Done(p: Poll, op: PollOp): Poll {
    match op
    case Watch(u, ev) => Watched(p, u, ev)
    case Forget(u) => Forgotten(p, u)
    case Tell(u, c) => Applied(p, c, u)
  }

  function AfterAll(ops: seq<PollOp>): Poll {
    if ops == [] then NO_SOCKETS else Done(AfterAll(ops[..|ops| - 1]), ops[|ops| - 1])
  }

  /** The socket has been watched for reading and has not been removed since. */
  ghost predicate StillWatched(ops: seq<PollOp>, u: SocketId, read: bool, i: int) {
    && 0 <= i < |ops| && ops[i].Watch? && ops[i].who == u && (if read then ops[i].ev.read else ops[i].ev.write)
    && forall j :: i < j < |ops| ==> ops[j] != Forget(u)
  }

  function On(read: bool): Change {
    if read then ReadOn else WriteOn
  }

  function Off(read: bool): Change {
    if read then ReadOff else WriteOff
  }

  /** The socket has been found ready while it was watched, and neither found not ready nor removed since. */
  ghost predicate StillReady(ops: seq<PollOp>, u: SocketId, read: bool, i: int, k: int) {
    && 0 <= i < k < |ops| && StillWatched(ops, u, read, i) && ops[k] == Tell(u, On(read))
    && forall j :: k < j < |ops| ==> ops[j] != Tell(u, Off(read))
  }

  function Interest(p: Poll, read: bool): set<SocketId> {
    if read then p.ins else p.outs
  }

  function Reported(p: Poll, read: bool): set<SocketId> {
    if read then p.readable else p.writable
  }

  /** A poll watches a socket if and only if it was told to and not told otherwise since. */
  lemma {:induction false} InterestHistory(ops: seq<PollOp>, u: SocketId, read: bool)
    ensures u in Interest(AfterAll(ops), read) <==> exists i :: StillWatched(ops, u, read, i)
  {
    if ops != [] {
      var front, last := ops[..|ops| - 1], |ops| - 1;
      InterestHistory(front, u, read);
      if ops[last] != Forget(u) {
        forall i | 0 <= i < last ensures StillWatched(front, u, read, i) == StillWatched(ops, u, read, i) {
        }
        if i :| StillWatched(front, u, read, i) {
          assert StillWatched(ops, u, read, i);
        }
        if i :| StillWatched(ops, u, read, i) && i < last {
          assert StillWatched(front, u, read, i);
        }
        assert StillWatched(ops, u, read, last) <==>
               ops[last].Watch? && ops[last].who == u && (if read then ops[last].ev.read else ops[last].ev.write);
      } else {
        assert forall i :: StillWatched(ops, u, read, i) ==> i == last;
      }
    }
  }

  /** A look at a poll reports a socket if and only if it was found ready while watched, and neither
      found not ready nor removed since. */
  lemma {:induction false} ReadyHistory(ops: seq<PollOp>, u: SocketId, read: bool)
    ensures u in Reported(AfterAll(ops), read) <==> exists i, k :: StillReady(ops, u, read, i, k)
  {
    if ops != [] {
      var front, last := ops[..|ops| - 1], |ops| - 1;
      ReadyHistory(front, u, read);
      InterestHistory(front, u, read);
      forall i, k | 0 <= i < k < last && ops[last] != Forget(u) && ops[last] != Tell(u, Off(read))
        ensures StillReady(front, u, read, i, k) == StillReady(ops, u, read, i, k)
      {
        assert StillWatched(front, u, read, i) == StillWatched(ops, u, read, i);
      }
      if ops[last] == Tell(u, On(read)) {
        forall i | 0 <= i < last ensures StillWatched(front, u, read, i) == StillReady(ops, u, read, i, last) {
          assert StillWatched(front, u, read, i) == StillWatched(ops, u, read, i);
        }
      }
    }
  }

  lemma Moved(done: set<int>, rest: set<int>, e: int)
    requires done !! rest && e in rest
    ensures done + {e} !! rest - {e} && (done + {e}) + (rest - {e}) == done + rest && |rest - {e}| < |rest|
  {
  }

  lemma ChangeNone(polls: map<int, Poll>, c: Change, u: SocketId)
    ensures Changed(polls, {}, c, u) == polls
  {
  }

  lemma ChangeOneMore(polls: map<int, Poll>, done: set<int>, e: int, c: Change, u: SocketId)
    requires e !in done
    ensures Changed(polls, done + {e}, c, u) ==
            if e in polls then Changed(polls, done, c, u)[e := Applied(polls[e], c, u)] else Changed(polls, done, c, u)
    ensures e in Changed(polls, done, c, u) <==> e in polls
    ensures e in polls ==> Changed(polls, done, c, u)[e] == polls[e]
  {
  }

  /** After so many polls the ids start again. */
  const ID_PERIOD: int := 0x7FFF_FFFF

  /** The ids are given out in turn, and the polls are the latest with their ids. */
  ghost predicate InTurn(ids: set<int>, idSeed: int, created: nat, birth: map<int, nat>) {
    && idSeed == created % ID_PERIOD
    && forall e :: e in ids ==> e in birth && e == birth[e] % ID_PERIOD && created - ID_PERIOD < birth[e] <= created
  }

  lemma NextId(k: nat)
    ensures (k + 1) % ID_PERIOD == if k % ID_PERIOD + 1 >= ID_PERIOD then 0 else k % ID_PERIOD + 1
  {
  }

  /** Of polls created at most a turn apart, two have the same id exactly if they are a whole turn apart. */
  lemma SameId(j: nat, k: nat)
    requires j < k <= j + ID_PERIOD
    ensures j % ID_PERIOD == k % ID_PERIOD <==> k == j + ID_PERIOD
  {
  }

  /** What `enable_read` and its like do to the polls leaves the ids as they are. */
  lemma ReportKeepsTurn(polls: map<int, Poll>, eids: set<int>, c: Change, u: SocketId,
                        idSeed: int, created: nat, birth: map<int, nat>)
    requires InTurn(polls.Keys, idSeed, created, birth)
    ensures InTurn(Changed(polls, eids, c, u).Keys, idSeed, created, birth)
  {
    ChangedOnlyFor(polls, eids, c, u);
  }

  class EPoll {
    var polls: map<int, Poll>
    var idSeed: int

    ghost var created: nat            // how many polls have been created
    ghost var birth: map<int, nat>    // as which of them the poll with an id was created

    ghost predicate Numbered()
      reads this
    {
      InTurn(polls.Keys, idSeed, created, birth)
    }

    constructor ()
      ensures Numbered() && polls == map[] && created == 0
    {
      polls, idSeed := map[], 0;
      created, birth := 0, map[];
    }

    /** The new poll takes the place of an older one if and only if that one has not been released for a whole
        turn of the ids. */
    method Create() returns (eid: int)
      requires Numbered()
      modifies this
      ensures Numbered() && polls == old(polls)[eid := NO_SOCKETS]
      ensures created == old(created) + 1 && birth == old(birth)[eid := created]
      ensures eid in old(polls) <==> exists e :: e in old(polls) && created - old(birth)[e] == ID_PERIOD
    {
      NextId(created);
      forall e | e in polls {
        SameId(birth[e], created + 1);
      }
      idSeed := idSeed + 1;
      if idSeed >= 0x7FFF_FFFF {
        idSeed := 0;
      }
      polls := polls[idSeed := NO_SOCKETS];
      created := created + 1;
      birth := birth[idSeed := created];
      return idSeed;
    }

    method Release(eid: int) returns (ok: bool)
      modifies this`polls
      ensures ok == (eid in old(polls)) && polls == old(polls) - {eid} && (old(Numbered()) ==> Numbered())
    {
      ok := eid in polls;
      polls := polls - {eid};
    }

    method AddUsock(eid: int, u: SocketId, ev: Events) returns (ok: bool)
      modifies this`polls
      ensures ok == (eid in old(polls))
      ensures polls == if ok then old(polls)[eid := Watched(old(polls)[eid], u, ev)] else old(polls)
      ensures old(Numbered()) ==> Numbered()
    {
      if eid !in polls {
        return false;
      }
      polls := polls[eid := Watched(polls[eid], u, ev)];
      return true;
    }

    method RemoveUsock(eid: int, u: SocketId) returns (ok: bool)
      modifies this`polls
      ensures ok == (eid in old(polls))
      ensures polls == if ok then old(polls)[eid := Forgotten(old(polls)[eid], u)] else old(polls)
      ensures old(Numbered()) ==> Numbered()
    {
      if eid !in polls {
        return false;
      }
      polls := polls[eid := Forgotten(polls[eid], u)];
      return true;
    }

    /** `enable_write`, `enable_read`, `disable_write` and `disable_read`, which differ only in what they
        do to a poll: change every poll of `eids` that still exists, and leave out the others. */
    method Report(u: SocketId, eids: set<int>, c: Change) returns (left: set<int>)
      modifies this`polls
      ensures polls == Changed(old(polls), eids, c, u)
      ensures left == eids * old(polls).Keys
    {
      hide Changed, Applied, SameButFor;
      var rest := eids;
      left := {};
      ghost var done: set<int> := {};
      ChangeNone(polls, c, u);
      while rest != {}
        invariant done !! rest && done + rest == eids
        invariant left == done * old(polls).Keys
        invariant polls == Changed(old(polls), done, c, u)
        decreases |rest|
      {
        SenderSpec.Inhabited(rest);
        var e :| e in rest;
        ChangeOneMore(old(polls), done, e, c, u);
        if e in polls {
          polls := polls[e := Applied(polls[e], c, u)];
          left := left + {e};
        }
        Moved(done, rest, e);
        done, rest := done + {e}, rest - {e};
      }
      assert done == eids;
    }

    /** One look of `wait` at the ready sets. */
    method Ready(eid: int) returns (found: bool, readfds: set<SocketId>, writefds: set<SocketId>)
      ensures found == (eid in polls)
      ensures found ==> readfds == polls[eid].readable && writefds == polls[eid].writable
    {
      if eid !in polls {
        return false, {}, {};
      }
      return true, polls[eid].readable, polls[eid].writable;
    }
  }
}
