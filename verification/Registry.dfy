/** The registry of sockets and multiplexers (udt4/src/api.cpp): which sockets are open, which are
    closed and wait to be destroyed, which wait to be accepted, and how many share a multiplexer. */
module Registries {
  import opened SenderSpec

  type SocketId = int

  datatype Status = Init | Opened | Listening | Connecting | Connected | Closed

  /** A registered socket.  `queued` are the connections waiting to be accepted, for a listener. */
  datatype Rec = Rec(
    status: Status, broken: bool, timeStamp: int, listener: Option<SocketId>,
    queued: Option<set<SocketId>>, accepted: set<SocketId>, backlog: int,
    version: int, mss: int, reuse: bool, port: int, muxId: Option<int>)

  datatype Mux = Mux(refCount: int, version: int, mss: int, reusable: bool, port: int)

  // ----- counting the users of a multiplexer

  /** Which multiplexer every socket uses. */
  function Uses(socks: map<SocketId, Rec>): map<SocketId, Option<int>> {
    map u | u in socks :: socks[u].muxId
  }

  function Users(uses: map<SocketId, Option<int>>, m: int): set<SocketId> {
    set u | u in uses && uses[u] == Some(m)
  }

  /** Every multiplexer in use exists, and its reference count is the number of its users. */
  ghost predicate Counted(muxes: map<int, Mux>, uses: map<SocketId, Option<int>>) {
    && (forall u :: u in uses && uses[u].Some? ==> uses[u].value in muxes)
    && (forall m :: m in muxes ==> muxes[m].refCount == |Users(uses, m)| && Users(uses, m) != {})
  }

  lemma UsersAfterPut(uses: map<SocketId, Option<int>>, u: SocketId, mux: Option<int>, m: int)
    requires u !in uses || uses[u] == None
    ensures Users(uses[u := mux], m) == if mux == Some(m) then Users(uses, m) + {u} else Users(uses, m)
    ensures u !in Users(uses, m)
  {
  }

  /** A socket without a multiplexer changes no count, */
  lemma CountedAfterNew(muxes: map<int, Mux>, uses: map<SocketId, Option<int>>, u: SocketId)
    requires Counted(muxes, uses) && u !in uses
    ensures Counted(muxes, uses[u := None])
  {
    forall m | m in muxes ensures muxes[m].refCount == |Users(uses[u := None], m)| && Users(uses[u := None], m) != {} {
      UsersAfterPut(uses, u, None, m);
    }
  }

  /** one that joins a multiplexer counts there, */
  lemma CountedAfterJoin(muxes: map<int, Mux>, uses: map<SocketId, Option<int>>, u: SocketId, m: int)
    requires Counted(muxes, uses) && m in muxes && (u in uses ==> uses[u] == None)
    ensures Counted(muxes[m := muxes[m].(refCount := muxes[m].refCount + 1)], uses[u := Some(m)])
  {
    forall k | k in muxes ensures
        var joined := Users(uses[u := Some(m)], k);
        joined != {} && |joined| == |Users(uses, k)| + if k == m then 1 else 0
    {
      UsersAfterPut(uses, u, Some(m), k);
    }
  }

  /** one that opens its own is its only user, */
  lemma CountedAfterOwn(muxes: map<int, Mux>, uses: map<SocketId, Option<int>>, u: SocketId, m: int, mux: Mux)
    requires Counted(muxes, uses) && m !in muxes && (u in uses ==> uses[u] == None) && mux.refCount == 1
    ensures Counted(muxes[m := mux], uses[u := Some(m)])
  {
    OnlyUser(muxes, uses, u, m);
    forall k | k in muxes ensures Users(uses[u := Some(m)], k) == Users(uses, k) {
      UsersAfterPut(uses, u, Some(m), k);
    }
  }

  lemma OnlyUser(muxes: map<int, Mux>, uses: map<SocketId, Option<int>>, u: SocketId, m: int)
    requires Counted(muxes, uses) && m !in muxes
    ensures Users(uses[u := Some(m)], m) == {u} && |{u}| == 1
  {
    assert forall v :: v in uses ==> uses[v] != Some(m);
  }

  /** What `removeSocket` does to the multiplexers when the socket that used `mux` is gone. */
  function Released(muxes: map<int, Mux>, mux: Option<int>): map<int, Mux> {
    if mux.None? || mux.value !in muxes then muxes
    else
      var m := muxes[mux.value].(refCount := muxes[mux.value].refCount - 1);
      if m.refCount == 0 then muxes - {mux.value} else muxes[mux.value := m]
  }

  lemma UsersAfterRemove(uses: map<SocketId, Option<int>>, u: SocketId, m: int)
    requires u in uses
    ensures Users(uses - {u}, m) == Users(uses, m) - {u}
    ensures uses[u] == Some(m) ==> |Users(uses - {u}, m)| == |Users(uses, m)| - 1
    ensures uses[u] != Some(m) ==> Users(uses - {u}, m) == Users(uses, m)
  {
    assert uses[u] == Some(m) ==> u in Users(uses, m);
  }

  /** and one that goes takes the multiplexer with it exactly when nobody else uses it. */
  lemma CountedAfterRemove(muxes: map<int, Mux>, uses: map<SocketId, Option<int>>, u: SocketId)
    requires Counted(muxes, uses) && u in uses
    ensures Counted(Released(muxes, uses[u]), uses - {u})
    ensures forall m :: m in muxes ==> (m !in Released(muxes, uses[u]) <==> Users(uses - {u}, m) == {})
  {
    var left := Released(muxes, uses[u]);
    forall m | m in muxes ensures m !in left <==> Users(uses - {u}, m) == {} {
      UsersAfterRemove(uses, u, m);
    }
    forall m | m in left ensures left[m].refCount == |Users(uses - {u}, m)| && Users(uses - {u}, m) != {} {
      UsersAfterRemove(uses, u, m);
    }
    forall v | v in uses - {u} && uses[v].Some? ensures uses[v].value in left {
      UsersAfterRemove(uses, u, uses[v].value);
      assert v in Users(uses - {u}, uses[v].value);
    }
  }

  // ----- the invariant

  /** All registered sockets. */
  function All(sockets: map<SocketId, Rec>, closed: map<SocketId, Rec>): map<SocketId, Rec> {
    closed + sockets
  }

  /** Everything in the queue of a listener is open, unknown to the user and names the listener. */
  ghost predicate Queues(sockets: map<SocketId, Rec>, closed: map<SocketId, Rec>, given: set<SocketId>) {
    var all := All(sockets, closed);
    forall l :: l in all ==> QueueOk(sockets, given, l, all[l].queued)
  }

  /** What `q` must be to wait in the queue of `l`. */
  ghost predicate MayQueue(sockets: map<SocketId, Rec>, given: set<SocketId>, l: SocketId, q: SocketId) {
    q in sockets && q !in given && sockets[q].listener == Some(l) && sockets[q].queued.None?
  }

  ghost predicate QueueOk(sockets: map<SocketId, Rec>, given: set<SocketId>, l: SocketId,
                          queue: Option<set<SocketId>>) {
    queue.Some? ==> forall q :: q in queue.value ==> MayQueue(sockets, given, l, q)
  }

  /** The status of an open socket says whether it has a multiplexer and a queue. */
  predicate StatusOk(u: SocketId, r: Rec, muxes: map<int, Mux>) {
    && (r.status == Init ==> r.muxId.None? && u !in muxes)
    && (r.status != Init ==> r.muxId.Some?)
    && (r.status == Listening ==> r.queued.Some?)
    && (r.queued.Some? ==> r.status == Listening || r.status == Closed)
    && (r.listener.Some? ==> r.status == Connected || r.status == Closed)
    && (r.muxId.Some? && r.muxId.value in muxes ==> muxes[r.muxId.value].port == r.port)
  }

  ghost predicate Ids(sockets: map<SocketId, Rec>, closed: map<SocketId, Rec>, muxes: map<int, Mux>,
                      given: set<SocketId>, lastId: int) {
    && (forall u :: u in sockets || u in closed || u in muxes || u in given ==> u >= lastId)
    && (forall u :: u in sockets && sockets[u].listener.Some? ==> sockets[u].listener.value >= lastId)
    && sockets.Keys !! closed.Keys
  }

  /** A socket that came in through a listener finds a queue there for as long as the listener exists. */
  ghost predicate Listeners(sockets: map<SocketId, Rec>, closed: map<SocketId, Rec>) {
    forall u :: u in sockets && sockets[u].listener.Some? ==>
      HasQueue(All(sockets, closed), sockets[u].listener.value)
  }

  predicate HasQueue(all: map<SocketId, Rec>, l: SocketId) {
    l in all ==> all[l].queued.Some?
  }

  ghost predicate Statuses(sockets: map<SocketId, Rec>, muxes: map<int, Mux>) {
    forall u :: u in sockets ==> StatusOk(u, sockets[u], muxes)
  }

  ghost predicate Ok(sockets: map<SocketId, Rec>, closed: map<SocketId, Rec>, muxes: map<int, Mux>,
                     given: set<SocketId>, lastId: int) {
    && Ids(sockets, closed, muxes, given, lastId)
    && Counted(muxes, Uses(All(sockets, closed)))
    && Queues(sockets, closed, given)
    && Listeners(sockets, closed)
    && Statuses(sockets, muxes)
  }

  class Registry {
    var sockets: map<SocketId, Rec>
    var closed: map<SocketId, Rec>
    var muxes: map<int, Mux>
    var lastId: int

    ghost var given: set<SocketId>    // the sockets the user knows

    ghost predicate Valid()
      reads this
    {
      Ok(sockets, closed, muxes, given, lastId)
    }

    constructor (startId: int)
      ensures Valid() && sockets == map[] && closed == map[] && muxes == map[]
    {
      sockets, closed, muxes, lastId, given := map[], map[], map[], startId, {};
    }

    /** `locate`: an open socket that is not about to be closed. */
    predicate Located(u: SocketId)
      reads this
    {
      u in sockets && sockets[u].status != Closed
    }

    /** `newSocket` */
    method NewSocket(version: int, mss: int, reuse: bool) returns (u: SocketId)
      requires Valid()
      modifies this
      ensures Valid() && u !in old(sockets) && u !in old(closed) && given == old(given) + {u}
      ensures sockets == old(sockets)[u := FreshRec(version, mss, reuse)]
      ensures closed == old(closed) && muxes == old(muxes)
    {
      hide Ok;
      NewKeepsOk(sockets, closed, muxes, given, lastId, FreshRec(version, mss, reuse));
      lastId := lastId - 1;
      u := lastId;
      given := given + {u};
      sockets := sockets[u := FreshRec(version, mss, reuse)];
    }

    /** `updateMux` with an address: share a multiplexer at the port if both sides allow it, otherwise
        open a new one.  `actual` is the port the system gives, `opens` whether the channel opens. */
    method UpdateMux(u: SocketId, port: Option<int>, actual: int, opens: bool) returns (ok: bool, ghost m: int)
      requires Valid() && u in sockets && sockets[u].status == Init
      modifies this`sockets, this`muxes
      ensures Valid()
      ensures !ok ==> sockets == old(sockets) && muxes == old(muxes)
      ensures ok ==> Joined(old(muxes), muxes, u, m)
      ensures ok ==> sockets == old(sockets)[u := Attached(old(sockets)[u], m, muxes)]
    {
      hide Ok;
      var r := sockets[u];
      var found := None;
      if r.reuse && port.Some? {
        found := FindReusable(r, port.value);
      }
      if found.Some? {
        m := found.value;
        JoinKeepsOk(sockets, closed, muxes, given, lastId, u, m);
        muxes := muxes[found.value := muxes[found.value].(refCount := muxes[found.value].refCount + 1)];
        sockets := sockets[u := r.(status := Opened, muxId := found, port := port.value)];
        return true, m;
      }
      if !opens {
        return false, u;
      }
      var mux := Mux(1, r.version, r.mss, r.reuse, actual);
      OwnKeepsOk(sockets, closed, muxes, given, lastId, u, mux);
      muxes := muxes[u := mux];
      sockets := sockets[u := r.(status := Opened, muxId := Some(u), port := actual)];
      return true, u;
    }

    /** The search for a multiplexer that may be shared. */
    method FindReusable(r: Rec, port: int) returns (m: Option<int>)
      ensures m.Some? ==> m.value in muxes && Shareable(muxes[m.value], r, port)
      ensures m.None? ==> forall k :: k in muxes ==> !Shareable(muxes[k], r, port)
    {
      var rest := muxes.Keys;
      while rest != {}
        invariant rest <= muxes.Keys
        invariant forall k :: k in muxes && k !in rest ==> !Shareable(muxes[k], r, port)
        decreases |rest|
      {
        Inhabited(rest);
        var k :| k in rest;
        if Shareable(muxes[k], r, port) {
          return Some(k);
        }
        rest := rest - {k};
      }
      return None;
    }

    /** `bind` */
    method Bind(u: SocketId, port: int, actual: int, opens: bool) returns (ok: bool, ghost m: int)
      requires Valid()
      modifies this`sockets, this`muxes
      ensures Valid()
      ensures !ok ==> sockets == old(sockets) && muxes == old(muxes)
      ensures ok ==> old(Located(u)) && old(sockets)[u].status == Init
      ensures ok ==> Joined(old(muxes), muxes, u, m)
      ensures ok ==> sockets == old(sockets)[u := Attached(old(sockets)[u], m, muxes)]
    {
      hide Ok, Joined;
      if !Located(u) || sockets[u].status != Init {
        return false, u;
      }
      ok, m := UpdateMux(u, Some(port), actual, opens);
    }

    /** `listen`; listening twice is harmless. */
    method Listen(u: SocketId, backlog: int) returns (ok: bool)
      requires Valid()
      modifies this`sockets
      ensures Valid()
      ensures ok <==> old(Located(u)) &&
                      (old(sockets)[u].status == Listening || (old(sockets)[u].status == Opened && backlog > 0))
      ensures sockets == if ok && old(sockets)[u].status == Opened
                         then old(sockets)[u := old(sockets)[u].(status := Listening, backlog := backlog,
                                                                 queued := Some({}), accepted := {})]
                         else old(sockets)
    {
      hide Ok;
      if !Located(u) {
        return false;
      }
      if sockets[u].status == Listening {
        return true;
      }
      if sockets[u].status != Opened || backlog <= 0 {
        return false;
      }
      ListenKeepsOk(sockets, closed, muxes, given, lastId, u, backlog);
      sockets := sockets[u := sockets[u].(status := Listening, backlog := backlog, queued := Some({}), accepted := {})];
      return true;
    }

    /** `connect`: a new socket gets its own multiplexer first.  `connects` tells whether the connection
        could be requested; if not, the socket stays bound. */
    method Connect(u: SocketId, actual: int, opens: bool, connects: bool) returns (ok: bool, ghost m: int)
      requires Valid()
      modifies this`sockets, this`muxes
      ensures Valid()
      ensures !old(Located(u)) || old(sockets)[u].status !in {Init, Opened} ==>
        !ok && sockets == old(sockets) && muxes == old(muxes)
      ensures old(Located(u)) && old(sockets)[u].status == Opened ==>
        ok == connects && muxes == old(muxes) && sockets == old(sockets)[u := Requested(old(sockets)[u], connects)]
      ensures old(Located(u)) && old(sockets)[u].status == Init && muxes != old(muxes) ==>
        ok == connects && Joined(old(muxes), muxes, u, m)
        && sockets == old(sockets)[u := Requested(Attached(old(sockets)[u], m, muxes), connects)]
      ensures old(Located(u)) && old(sockets)[u].status == Init && muxes == old(muxes) ==>
        !ok && sockets == old(sockets)
    {
      hide Ok;
      m := u;
      if !Located(u) {
        return false, m;
      }
      if sockets[u].status == Init {
        ok, m := UpdateMux(u, None, actual, opens);
        if !ok {
          return;
        }
        JoinedIsChanged(old(muxes), muxes, u, m);
      } else if sockets[u].status != Opened {
        return false, m;
      }
      StatusKeepsOk(sockets, closed, muxes, given, lastId, u, Requested(sockets[u], connects));
      sockets := sockets[u := Requested(sockets[u], connects)];
      return connects, m;
    }

    /** The connection is established, */
    method ConnectComplete(u: SocketId)
      requires Valid()
      modifies this`sockets
      ensures Valid()
      ensures sockets == if old(Located(u)) && old(sockets)[u].status == Connecting
                         then old(sockets)[u := old(sockets)[u].(status := Connected)] else old(sockets)
    {
      hide Ok;
      if Located(u) && sockets[u].status == Connecting {
        StatusKeepsOk(sockets, closed, muxes, given, lastId, u, sockets[u].(status := Connected));
        sockets := sockets[u := sockets[u].(status := Connected)];
      }
    }

    /** or a connection breaks. */
    method Break(u: SocketId)
      requires Valid() && u in sockets
      modifies this`sockets
      ensures Valid() && sockets == old(sockets)[u := old(sockets)[u].(broken := true)]
    {
      hide Ok;
      StatusKeepsOk(sockets, closed, muxes, given, lastId, u, sockets[u].(broken := true));
      sockets := sockets[u := sockets[u].(broken := true)];
    }

    /** `newConnection`: a request has arrived at a listener.  `known` is the socket registered for the
        same peer, if there is one; when it is broken it makes room for the new one. */
    method NewConnection(l: SocketId, known: Option<SocketId>, now: int) returns (u: Option<SocketId>, ghost m: int)
      requires Valid() && Located(l) && sockets[l].status == Listening
      requires known.Some? ==> known.value in sockets && sockets[known.value].listener.Some?
      modifies this`sockets, this`muxes, this`lastId
      ensures Valid()
      ensures known.Some? && !old(sockets)[known.value].broken ==> u.None? && sockets == old(sockets)
      ensures known.None? || old(sockets)[known.value].broken ==>
        var before := if known.Some? then Replaced(old(sockets), l, known.value, now) else old(sockets);
        && l in before && before[l].queued.Some?
        && (u.Some? <==> |before[l].queued.value| < before[l].backlog)
        && (u.None? ==> sockets == before)
        && (u.Some? ==>
             && u.value !in before && u.value !in closed
             && IsAdmitted(before, sockets, old(muxes), muxes, l, u.value, m))
      ensures u.None? ==> muxes == old(muxes)
    {
      hide Ok, IsAdmitted;
      m := l;
      OpenHasQueue(sockets, closed, muxes, given, lastId, l);
      if known.Some? {
        if !sockets[known.value].broken {
          return None, m;
        }
        ForgetRequest(l, known.value, now);
        OpenHasQueue(sockets, closed, muxes, given, lastId, l);
      }
      if |sockets[l].queued.value| >= sockets[l].backlog {
        return None, m;
      }
      var id;
      id, m := Admit(l);
      return Some(id), m;
    }

    /** Register the socket of a new connection and queue it. */
    method Admit(l: SocketId) returns (u: SocketId, ghost m: int)
      requires Valid() && l in sockets && sockets[l].status == Listening && sockets[l].queued.Some?
      modifies this`sockets, this`muxes, this`lastId
      ensures Valid() && u !in old(sockets) && u !in closed
      ensures IsAdmitted(old(sockets), sockets, old(muxes), muxes, l, u, m)
    {
      hide Ok;
      var k := FindPort(l);
      m := k;
      AdmitKeepsOk(sockets, closed, muxes, given, lastId, l, k);
      lastId := lastId - 1;
      u := lastId;
      muxes := muxes[k := muxes[k].(refCount := muxes[k].refCount + 1)];
      sockets := sockets[u := Admitted(sockets[l], l, k, muxes[k].port)];
      sockets := sockets[l := sockets[l].(queued := Some(sockets[l].queued.value + {u}))];
    }

    /** The last connection from the same peer has broken. */
    method ForgetRequest(l: SocketId, u: SocketId, now: int)
      requires Valid() && l in sockets && u in sockets && sockets[u].listener.Some? && sockets[l].status == Listening
      modifies this`sockets
      ensures Valid() && u != l && sockets == Replaced(old(sockets), l, u, now)
    {
      hide Ok;
      HasListenerIsNone(sockets, closed, muxes, given, lastId, u, l);
      StatusKeepsOk(sockets, closed, muxes, given, lastId, u, sockets[u].(status := Closed, timeStamp := now));
      sockets := sockets[u := sockets[u].(status := Closed, timeStamp := now)];
      DequeueOpenKeepsOk(sockets, closed, muxes, given, lastId, l, u);
      sockets := sockets[l := Dequeued(sockets[l], u)];
    }

    /** `updateMux` with a listener: the multiplexer at the listener's port. */
    method FindPort(l: SocketId) returns (m: int)
      requires Valid() && l in sockets && sockets[l].status == Listening
      ensures m in muxes && muxes[m].port == sockets[l].port
    {
      hide Ok;
      ListenerHasMux(sockets, closed, muxes, given, lastId, l);
      var rest := muxes.Keys;
      while true
        invariant rest <= muxes.Keys
        invariant sockets[l].muxId.Some? && sockets[l].muxId.value in rest
        decreases |rest|
      {
        Inhabited(rest);
        var k :| k in rest;
        if muxes[k].port == sockets[l].port {
          return k;
        }
        rest := rest - {k};
      }
    }

    /** `accept`: the first of the queue is handed to the user. */
    method Accept(l: SocketId) returns (u: Option<SocketId>)
      requires Valid()
      modifies this`sockets, this`given
      ensures Valid()
      ensures u.Some? <==> old(Located(l)) && old(sockets)[l].status == Listening && !old(sockets)[l].broken
                           && old(sockets)[l].queued != None && old(sockets)[l].queued != Some({})
      ensures u.None? ==> sockets == old(sockets) && given == old(given)
      ensures u.Some? ==>
        && u.value in old(sockets) && u.value !in old(given) && given == old(given) + {u.value}
        && IsMin(old(sockets)[l].queued.value, u.value)
        && sockets == old(sockets)[l := Taken(old(sockets)[l], u.value)]
    {
      hide Ok;
      if !Located(l) || sockets[l].status != Listening || sockets[l].broken {
        return None;
      }
      OpenHasQueue(sockets, closed, muxes, given, lastId, l);
      var queue := sockets[l].queued.value;
      if queue == {} {
        return None;
      }
      MinExists(queue);
      var q :| q in queue && forall v :: v in queue ==> q <= v;
      AcceptKeepsOk(sockets, closed, muxes, given, lastId, l, q);
      sockets := sockets[l := Taken(sockets[l], q)];
      given := given + {q};
      return Some(q);
    }

    /** `close`: a listener is only marked and closed later; any other socket goes to the closed ones. */
    method Close(u: SocketId, now: int) returns (ok: bool)
      requires Valid() && u in given
      modifies this`sockets, this`closed
      ensures Valid() && ok == old(Located(u))
      ensures !ok ==> sockets == old(sockets) && closed == old(closed)
      ensures ok && old(sockets)[u].status == Listening ==>
        && closed == old(closed)
        && sockets == if old(sockets)[u].broken then old(sockets)
           else old(sockets)[u := old(sockets)[u].(broken := true, timeStamp := now)]
      ensures ok && old(sockets)[u].status != Listening ==>
        && sockets == old(sockets) - {u}
        && closed == old(closed)[u := old(sockets)[u].(status := Closed, timeStamp := now)]
    {
      hide Ok;
      if !Located(u) {
        return false;
      }
      if sockets[u].status == Listening {
        if !sockets[u].broken {
          StatusKeepsOk(sockets, closed, muxes, given, lastId, u, sockets[u].(broken := true, timeStamp := now));
          sockets := sockets[u := sockets[u].(broken := true, timeStamp := now)];
        }
        return true;
      }
      var r := sockets[u].(status := Closed, timeStamp := now);
      CloseKeepsOk(sockets, closed, muxes, given, lastId, u, r);
      sockets, closed := sockets - {u}, closed[u := r];
      return true;
    }

    /** `checkBrokenSockets`: close what is broken, then destroy what has been closed for a second.
        `waits` are the broken sockets given more time to be read, `busy` the sockets still on a
        receive list. */
    method CheckBrokenSockets(now: int, waits: set<SocketId>, busy: set<SocketId>)
      requires Valid()
      modifies this`sockets, this`closed, this`muxes
      ensures Valid()
      ensures forall u :: u in sockets ==>
        u in old(sockets) && !Due(u, old(sockets)[u], now, waits) && Kept(sockets[u], old(sockets)[u])
      ensures forall u :: u in old(sockets) && u !in sockets ==>
        Due(u, old(sockets)[u], now, waits) || Orphan(old(sockets)[u], Expiring(old(closed), now, busy))
      ensures All(sockets, closed).Keys == All(old(sockets), old(closed)).Keys - Expiring(old(closed), now, busy)
    {
      hide Ok, Due, All, Expired;
      CloseBroken(now, waits);
      var due := Expiring(closed, now, busy);
      SameExpiring(old(sockets), old(closed), closed, now, busy);
      DestroyAll(due, now);
    }

    /** The first loop.  A closed socket leaves the open ones at once here; the source keeps it in both
        maps until the loop is done. */
    method CloseBroken(now: int, waits: set<SocketId>)
      requires Valid()
      modifies this`sockets, this`closed
      ensures Valid() && sockets.Keys <= old(sockets).Keys
      ensures All(sockets, closed).Keys == All(old(sockets), old(closed)).Keys
      ensures forall u :: u in old(sockets) ==> (u in sockets <==> !Due(u, old(sockets)[u], now, waits))
      ensures forall u :: u in sockets ==> Kept(sockets[u], old(sockets)[u])
      ensures ClosedSince(old(sockets), old(closed), closed, now)
    {
      hide Ok, All, Due, ClosedSince, Kept, ClosedNow;
      NoneClosed(sockets, closed, now);
      var rest := sockets.Keys;
      while rest != {}
        invariant Valid() && rest <= sockets.Keys <= old(sockets).Keys
        invariant All(sockets, closed).Keys == All(old(sockets), old(closed)).Keys
        invariant forall u :: u in sockets ==> Kept(sockets[u], old(sockets)[u])
        invariant forall u :: u in sockets && u !in rest ==> !Due(u, old(sockets)[u], now, waits)
        invariant forall u :: u in old(sockets) && u !in sockets ==> Due(u, old(sockets)[u], now, waits)
        invariant ClosedSince(old(sockets), old(closed), closed, now)
        decreases |rest|
      {
        Inhabited(rest);
        var u :| u in rest;
        SameDue(u, sockets[u], old(sockets)[u], now, waits);
        if Due(u, sockets[u], now, waits) {
          ghost var open, before := sockets, closed;
          CloseOne(u, now);
          StillKept(old(sockets), open, sockets);
          OneMoreClosed(old(sockets), old(closed), before, closed, open[u], u, now);
        }
        rest := rest - {u};
      }
    }

    /** Close a broken socket and take it out of its listener's queue. */
    method CloseOne(u: SocketId, now: int)
      requires Valid() && u in sockets
      modifies this`sockets, this`closed
      ensures Valid() && sockets.Keys == old(sockets).Keys - {u} && closed.Keys == old(closed).Keys + {u}
      ensures All(sockets, closed).Keys == All(old(sockets), old(closed)).Keys
      ensures u in closed && ClosedNow(closed[u], old(sockets)[u], now) && u !in old(closed)
      ensures forall v :: v in sockets ==> Kept(sockets[v], old(sockets)[v])
      ensures forall v :: v in old(closed) ==> v in closed && Kept(closed[v], old(closed)[v])
    {
      hide Ok;
      OpenIsNotClosed(sockets, closed, muxes, given, lastId, u);
      Dequeue(u);
      var r := sockets[u].(status := Closed, timeStamp := now);
      MoveKeepsOk(sockets, closed, muxes, given, lastId, u, r);
      sockets, closed := sockets - {u}, closed[u := r];
    }

    /** Take a socket out of the queue of its listener, which may itself be closed by now. */
    method Dequeue(u: SocketId)
      requires Valid() && u in sockets
      modifies this`sockets, this`closed
      ensures Valid() && sockets.Keys == old(sockets).Keys && closed.Keys == old(closed).Keys
      ensures Unqueued(All(sockets, closed), u)
      ensures forall v :: v in sockets ==> Kept(sockets[v], old(sockets)[v])
      ensures forall v :: v in closed ==> Kept(closed[v], old(closed)[v])
    {
      hide Ok;
      var listener := sockets[u].listener;
      OpenIsNotClosed(sockets, closed, muxes, given, lastId, u);
      if listener.Some? {
        var l := listener.value;
        if l in sockets {
          DequeueOpenKeepsOk(sockets, closed, muxes, given, lastId, l, u);
          sockets := sockets[l := Dequeued(sockets[l], u)];
        } else if l in closed {
          DequeueClosedKeepsOk(sockets, closed, muxes, given, lastId, l, Dequeued(closed[l], u));
          closed := closed[l := Dequeued(closed[l], u)];
        }
      }
      WaitsNowhere(sockets, closed, muxes, given, lastId, u);
    }

    /** The last loop. */
    method DestroyAll(due: set<SocketId>, now: int)
      requires Valid() && due <= closed.Keys
      modifies this`sockets, this`closed, this`muxes
      ensures Valid() && sockets.Keys <= old(sockets).Keys
      ensures forall u :: u in sockets ==> sockets[u] == old(sockets)[u]
      ensures forall u :: u in old(sockets) && u !in sockets ==> Orphan(old(sockets)[u], due)
      ensures All(sockets, closed).Keys == All(old(sockets), old(closed)).Keys - due
    {
      hide Ok, All, Released;
      var rest := due;
      ghost var done: set<SocketId> := {};
      while rest != {}
        invariant Valid() && sockets.Keys <= old(sockets).Keys && rest <= closed.Keys
        invariant done + rest == due && done !! rest
        invariant forall u :: u in sockets ==> sockets[u] == old(sockets)[u]
        invariant forall u :: u in old(sockets) && u !in sockets ==> Orphan(old(sockets)[u], due)
        invariant All(sockets, closed).Keys == All(old(sockets), old(closed)).Keys - done
        decreases |rest|
      {
        Inhabited(rest);
        var u :| u in rest;
        ghost var before := All(sockets, closed).Keys;
        Destroy(u, now, rest);
        assert before - {u} == All(old(sockets), old(closed)).Keys - (done + {u});
        done, rest := done + {u}, rest - {u};
      }
      assert done == due;
    }

    method Destroy(u: SocketId, now: int, ghost rest: set<SocketId>)
      requires Valid() && u in rest && rest <= closed.Keys
      modifies this`sockets, this`closed, this`muxes
      ensures Valid() && sockets.Keys <= old(sockets).Keys && rest - {u} <= closed.Keys
      ensures forall v :: v in sockets ==> sockets[v] == old(sockets)[v]
      ensures forall v :: v in old(sockets) && v !in sockets ==> old(sockets)[v].listener == Some(u)
      ensures All(sockets, closed).Keys == All(old(sockets), old(closed)).Keys - {u}
    {
      hide Ok, All, Released, Uses;
      RemoveSocket(u, now);
    }

    /** `removeSocket`: destroy a closed socket.  The sockets still waiting in its queue are closed; its
        multiplexer goes with its last user. */
    method RemoveSocket(u: SocketId, now: int)
      requires Valid()
      modifies this`sockets, this`closed, this`muxes
      ensures Valid()
      ensures u !in old(closed) ==> sockets == old(sockets) && closed == old(closed) && muxes == old(muxes)
      ensures u in old(closed) ==>
        var queue := if old(closed)[u].queued.Some? then old(closed)[u].queued.value else {};
        && sockets == old(sockets) - queue && sockets.Keys <= old(sockets).Keys
        && (forall q :: q in queue ==> q in old(sockets) && old(sockets)[q].listener == Some(u))
        && closed.Keys == old(closed).Keys + queue - {u}
        && (forall v :: v in closed ==> ClosedOrDropped(old(sockets), old(closed), v, closed[v], queue, now))
        && All(sockets, closed).Keys == All(old(sockets), old(closed)).Keys - {u}
        && muxes == Released(old(muxes), old(closed)[u].muxId)
        && forall m :: m in old(muxes) ==> (m !in muxes <==> Users(Uses(All(sockets, closed)), m) == {})
    {
      hide Ok, Released;
      if u !in closed {
        return;
      }
      var rec := closed[u];
      if rec.queued.Some? {
        CloseQueue(u, now);
      }
      ClosedIsNotOpen(sockets, closed, muxes, given, lastId, u);
      DestroyKeepsOk(sockets, closed, muxes, given, lastId, u);
      closed := closed - {u};
      muxes := Released(muxes, rec.muxId);
    }

    /** Close everything that waits in the queue of a closed listener. */
    method CloseQueue(l: SocketId, now: int)
      requires Valid() && l in closed && closed[l].queued.Some?
      modifies this`sockets, this`closed
      ensures Valid() && sockets == old(sockets) - old(closed)[l].queued.value
      ensures forall q :: q in old(closed)[l].queued.value ==> q in old(sockets) && old(sockets)[q].listener == Some(l)
      ensures closed.Keys == old(closed).Keys + old(closed)[l].queued.value
      ensures forall v :: v in closed && v != l ==>
        ClosedOrDropped(old(sockets), old(closed), v, closed[v], old(closed)[l].queued.value, now)
      ensures All(sockets, closed).Keys == All(old(sockets), old(closed)).Keys
      ensures l in closed && closed[l].muxId == old(closed)[l].muxId
    {
      hide Ok, All, ClosedOrDropped, Dropped;
      var queue := closed[l].queued.value;
      ghost var full, done: set<SocketId> := queue, {};
      forall q | q in queue ensures q in sockets && sockets[q].listener == Some(l) {
        QueuedIsOpen(sockets, closed, muxes, given, lastId, l, q);
      }
      NoneDropped(sockets, closed, l, now);
      while queue != {}
        invariant Valid() && l in closed && closed[l] == old(closed)[l].(queued := Some(queue))
        invariant done + queue == full && done !! queue
        invariant sockets == old(sockets) - done
        invariant closed.Keys == old(closed).Keys + done
        invariant forall v :: v in closed && v != l ==>
          ClosedOrDropped(old(sockets), old(closed), v, closed[v], done, now)
        invariant All(sockets, closed).Keys == All(old(sockets), old(closed)).Keys
        decreases |queue|
      {
        Inhabited(queue);
        var q :| q in queue;
        CloseNext(l, q, queue, now, old(sockets), old(closed), done);
        MovedOver(done, queue, q, full, old(sockets), old(closed).Keys);
        done, queue := done + {q}, queue - {q};
      }
      assert done == full;
    }

    /** One step of the loop, after the sockets `done` have been closed. */
    method CloseNext(l: SocketId, q: SocketId, queue: set<SocketId>, now: int,
                     ghost sockets0: map<SocketId, Rec>, ghost closed0: map<SocketId, Rec>, ghost done: set<SocketId>)
      requires Valid() && l in closed && closed[l].queued == Some(queue) && q in queue
      requires sockets == sockets0 - done && closed.Keys == closed0.Keys + done
      requires forall v :: v in closed && v != l ==> ClosedOrDropped(sockets0, closed0, v, closed[v], done, now)
      modifies this`sockets, this`closed
      ensures Valid() && l in closed && closed[l] == old(closed)[l].(queued := Some(queue - {q}))
      ensures sockets == sockets0 - (done + {q}) && closed.Keys == closed0.Keys + (done + {q})
      ensures forall v :: v in closed && v != l ==> ClosedOrDropped(sockets0, closed0, v, closed[v], done + {q}, now)
      ensures All(sockets, closed).Keys == All(old(sockets), old(closed)).Keys
    {
      hide Ok, All, ClosedOrDropped, Dropped;
      ghost var was := closed;
      CloseQueued(l, q, queue, now);
      OneMoreDropped(sockets0, closed0, was, closed, l, q, done, now);
    }

    method CloseQueued(l: SocketId, q: SocketId, queue: set<SocketId>, now: int)
      requires Valid() && l in closed && closed[l].queued == Some(queue) && q in queue
      modifies this`sockets, this`closed
      ensures Valid() && l in closed && closed[l] == old(closed)[l].(queued := Some(queue - {q}))
      ensures sockets == old(sockets) - {q} && closed.Keys == old(closed).Keys + {q}
      ensures q in old(sockets) && q !in old(closed) && closed[q] == Dropped(old(sockets)[q], now)
      ensures forall v :: v in closed && v != l && v != q ==> v in old(closed) && closed[v] == old(closed)[v]
      ensures All(sockets, closed).Keys == All(old(sockets), old(closed)).Keys
    {
      hide Ok;
      QueuedIsOpen(sockets, closed, muxes, given, lastId, l, q);
      DequeueClosedKeepsOk(sockets, closed, muxes, given, lastId, l, closed[l].(queued := Some(queue - {q})));
      closed := closed[l := closed[l].(queued := Some(queue - {q}))];
      WaitsNowhere(sockets, closed, muxes, given, lastId, q);
      MoveKeepsOk(sockets, closed, muxes, given, lastId, q,
                  sockets[q].(broken := true, status := Closed, timeStamp := now));
      closed := closed[q := sockets[q].(broken := true, status := Closed, timeStamp := now)];
      sockets := sockets - {q};
    }
  }

  predicate Shareable(mux: Mux, r: Rec, port: int) {
    mux.version == r.version && mux.mss == r.mss && mux.reusable && mux.port == port
  }

  /** A bound socket whose connection has been requested, if that was possible. */
  function Requested(r: Rec, connects: bool): Rec {
    r.(status := if connects then Connecting else Opened)
  }

  lemma JoinedIsChanged(before: map<int, Mux>, after: map<int, Mux>, u: SocketId, m: int)
    requires Joined(before, after, u, m)
    ensures after != before
  {
  }

  /** Socket `u` has joined multiplexer `m`, an existing one or a new one of its own. */
  predicate Joined(before: map<int, Mux>, after: map<int, Mux>, u: SocketId, m: int) {
    && m in after && after == before[m := after[m]]
    && (if m in before then after[m] == before[m].(refCount := before[m].refCount + 1)
       else m == u && after[m].refCount == 1)
  }

  function Attached(r: Rec, m: int, muxes: map<int, Mux>): Rec
    requires m in muxes
  {
    r.(status := Opened, muxId := Some(m), port := muxes[m].port)
  }

  function FreshRec(version: int, mss: int, reuse: bool): Rec {
    Rec(Init, false, 0, None, None, {}, 0, version, mss, reuse, 0, None)
  }

  lemma UsesAfterPut(sockets: map<SocketId, Rec>, closed: map<SocketId, Rec>, u: SocketId, r: Rec)
    requires u !in closed
    ensures All(sockets[u := r], closed) == All(sockets, closed)[u := r]
    ensures Uses(All(sockets[u := r], closed)) == Uses(All(sockets, closed))[u := r.muxId]
  {
    assert closed + sockets[u := r] == (closed + sockets)[u := r];
    UsesOfPut(All(sockets, closed), u, r);
  }

  lemma UsesOfPut(socks: map<SocketId, Rec>, u: SocketId, r: Rec)
    ensures Uses(socks[u := r]) == Uses(socks)[u := r.muxId]
  {
    var before, after := Uses(socks)[u := r.muxId], Uses(socks[u := r]);
    assert before.Keys == after.Keys;
    assert forall v :: v in before ==> before[v] == after[v];
  }

  lemma QueuesAfterNew(sockets: map<SocketId, Rec>, closed: map<SocketId, Rec>, given: set<SocketId>, u: SocketId,
                       r: Rec)
    requires Queues(sockets, closed, given) && u !in sockets && u !in closed && r.queued.None?
    ensures Queues(sockets[u := r], closed, given + {u})
  {
    UsesAfterPut(sockets, closed, u, r);
    var all, all' := All(sockets, closed), All(sockets[u := r], closed);
    forall l | l in all' ensures QueueOk(sockets[u := r], given + {u}, l, all'[l].queued) {
      if all'[l].queued.Some? {
        assert QueueOk(sockets, given, l, all[l].queued);
        forall q | q in all'[l].queued.value ensures MayQueue(sockets[u := r], given + {u}, l, q) {
          assert MayQueue(sockets, given, l, q);
        }
      }
    }
  }

  /** A change of an open socket that keeps its listener and gives it a good queue. */
  lemma QueuesAfterChange(sockets: map<SocketId, Rec>, closed: map<SocketId, Rec>, given: set<SocketId>,
                          u: SocketId, r: Rec)
    requires Queues(sockets, closed, given) && u in sockets && u !in closed
    requires QueueOk(sockets, given, u, r.queued) && r.listener == sockets[u].listener
    requires r.queued == sockets[u].queued || r.listener.None?
    ensures Queues(sockets[u := r], closed, given)
  {
    UsesAfterPut(sockets, closed, u, r);
    var all, all' := All(sockets, closed), All(sockets[u := r], closed);
    forall l | l in all' ensures QueueOk(sockets[u := r], given, l, all'[l].queued) {
      assert QueueOk(sockets, given, l, all'[l].queued);
      if all'[l].queued.Some? {
        forall q | q in all'[l].queued.value ensures MayQueue(sockets[u := r], given, l, q) {
          assert MayQueue(sockets, given, l, q);
        }
      }
    }
  }

  lemma NewKeepsOk(sockets: map<SocketId, Rec>, closed: map<SocketId, Rec>, muxes: map<int, Mux>, given: set<SocketId>,
                   lastId: int, r: Rec)
    requires Ok(sockets, closed, muxes, given, lastId) && r.status == Init && r.muxId.None? && r.listener.None?
    requires r.queued.None?
    ensures Ok(sockets[lastId - 1 := r], closed, muxes, given + {lastId - 1}, lastId - 1)
    ensures lastId - 1 !in sockets && lastId - 1 !in closed
  {
    hide Counted, Queues;
    var u := lastId - 1;
    UsesAfterPut(sockets, closed, u, r);
    CountedAfterNew(muxes, Uses(All(sockets, closed)), u);
    QueuesAfterNew(sockets, closed, given, u, r);
  }

  lemma JoinKeepsOk(sockets: map<SocketId, Rec>, closed: map<SocketId, Rec>, muxes: map<int, Mux>, given: set<SocketId>,
                    lastId: int, u: SocketId, m: int)
    requires Ok(sockets, closed, muxes, given, lastId) && u in sockets && sockets[u].status == Init && m in muxes
    ensures var muxes' := muxes[m := muxes[m].(refCount := muxes[m].refCount + 1)];
            Ok(sockets[u := Attached(sockets[u], m, muxes')], closed, muxes', given, lastId)
  {
    hide Counted, Queues;
    var r := Attached(sockets[u], m, muxes);
    UsesAfterPut(sockets, closed, u, r);
    CountedAfterJoin(muxes, Uses(All(sockets, closed)), u, m);
    QueuesAfterChange(sockets, closed, given, u, r);
  }

  lemma OwnKeepsOk(sockets: map<SocketId, Rec>, closed: map<SocketId, Rec>, muxes: map<int, Mux>, given: set<SocketId>,
                   lastId: int, u: SocketId, mux: Mux)
    requires Ok(sockets, closed, muxes, given, lastId) && u in sockets && sockets[u].status == Init && mux.refCount == 1
    ensures u !in muxes
    ensures Ok(sockets[u := Attached(sockets[u], u, muxes[u := mux])], closed, muxes[u := mux], given, lastId)
  {
    hide Queues;
    var r := Attached(sockets[u], u, muxes[u := mux]);
    UsesAfterPut(sockets, closed, u, r);
    CountedAfterOwn(muxes, Uses(All(sockets, closed)), u, u, mux);
    QueuesAfterChange(sockets, closed, given, u, r);
    forall v | v in sockets && v != u && sockets[v].muxId.Some? ensures sockets[v].muxId.value in muxes {
      assert Uses(All(sockets, closed))[v] == sockets[v].muxId;
    }
  }

  lemma ListenKeepsOk(sockets: map<SocketId, Rec>, closed: map<SocketId, Rec>, muxes: map<int, Mux>,
                      given: set<SocketId>, lastId: int, u: SocketId, backlog: int)
    requires Ok(sockets, closed, muxes, given, lastId) && u in sockets && sockets[u].status == Opened
    ensures Ok(sockets[u := sockets[u].(status := Listening, backlog := backlog, queued := Some({}), accepted := {})],
               closed, muxes, given, lastId)
  {
    hide Counted, Queues;
    var r := sockets[u].(status := Listening, backlog := backlog, queued := Some({}), accepted := {});
    UsesUnchanged(sockets, closed, u, r);
    QueuesAfterChange(sockets, closed, given, u, r);
  }

  lemma UsesUnchanged(sockets: map<SocketId, Rec>, closed: map<SocketId, Rec>, u: SocketId, r: Rec)
    requires u in sockets && u !in closed && r.muxId == sockets[u].muxId
    ensures Uses(All(sockets[u := r], closed)) == Uses(All(sockets, closed))
  {
    UsesAfterPut(sockets, closed, u, r);
    assert Uses(All(sockets, closed))[u] == r.muxId;
  }

  lemma StatusKeepsOk(sockets: map<SocketId, Rec>, closed: map<SocketId, Rec>, muxes: map<int, Mux>,
                      given: set<SocketId>, lastId: int, u: SocketId, r: Rec)
    requires Ok(sockets, closed, muxes, given, lastId) && u in sockets
    requires r == sockets[u].(status := r.status, broken := r.broken, timeStamp := r.timeStamp)
    requires StatusOk(u, sockets[u], muxes) ==> StatusOk(u, r, muxes)
    ensures Ok(sockets[u := r], closed, muxes, given, lastId)
  {
    hide Counted, Queues;
    UsesUnchanged(sockets, closed, u, r);
    QueueOf(sockets, closed, given, u);
    QueuesAfterChange(sockets, closed, given, u, r);
  }

  lemma QueueOf(sockets: map<SocketId, Rec>, closed: map<SocketId, Rec>, given: set<SocketId>, l: SocketId)
    requires Queues(sockets, closed, given) && l in All(sockets, closed)
    ensures QueueOk(sockets, given, l, All(sockets, closed)[l].queued)
  {
  }

  // ----- the queue of a listener

  /** Socket `u` waits in no queue. */
  ghost predicate Unqueued(all: map<SocketId, Rec>, u: SocketId) {
    forall l :: l in all && all[l].queued.Some? ==> u !in all[l].queued.value
  }

  /** What the user knows waits nowhere. */
  lemma KnownIsUnqueued(sockets: map<SocketId, Rec>, closed: map<SocketId, Rec>, given: set<SocketId>, u: SocketId)
    requires Queues(sockets, closed, given) && u in given
    ensures Unqueued(All(sockets, closed), u)
  {
    forall l | l in All(sockets, closed) && All(sockets, closed)[l].queued.Some?
      ensures u !in All(sockets, closed)[l].queued.value
    {
      assert QueueOk(sockets, given, l, All(sockets, closed)[l].queued);
      assert MayQueue(sockets, given, l, u) ==> u !in given;
    }
  }

  /** A socket waits in the queue of its own listener or nowhere. */
  lemma WaitsAtListener(sockets: map<SocketId, Rec>, closed: map<SocketId, Rec>, given: set<SocketId>, u: SocketId)
    requires Queues(sockets, closed, given) && u in sockets
    requires var l := sockets[u].listener;
             l.Some? && l.value in All(sockets, closed) && All(sockets, closed)[l.value].queued.Some? ==>
               u !in All(sockets, closed)[l.value].queued.value
    ensures Unqueued(All(sockets, closed), u)
  {
    forall l | l in All(sockets, closed) && All(sockets, closed)[l].queued.Some?
      ensures u !in All(sockets, closed)[l].queued.value
    {
      assert QueueOk(sockets, given, l, All(sockets, closed)[l].queued);
      assert u in All(sockets, closed)[l].queued.value ==> MayQueue(sockets, given, l, u);
    }
  }

  function Dequeued(r: Rec, u: SocketId): Rec {
    r.(queued := if r.queued.Some? then Some(r.queued.value - {u}) else None, accepted := r.accepted - {u})
  }

  lemma DequeueOpenKeepsOk(sockets: map<SocketId, Rec>, closed: map<SocketId, Rec>, muxes: map<int, Mux>,
                           given: set<SocketId>, lastId: int, l: SocketId, u: SocketId)
    requires Ok(sockets, closed, muxes, given, lastId) && l in sockets
    ensures Ok(sockets[l := Dequeued(sockets[l], u)], closed, muxes, given, lastId)
  {
    hide Counted, Queues;
    var r := Dequeued(sockets[l], u);
    UsesUnchanged(sockets, closed, l, r);
    QueueOf(sockets, closed, given, l);
    FewerQueued(sockets, closed, given, l, r);
  }

  lemma FewerQueued(sockets: map<SocketId, Rec>, closed: map<SocketId, Rec>, given: set<SocketId>, l: SocketId, r: Rec)
    requires Queues(sockets, closed, given) && l in sockets && l !in closed
    requires r.listener == sockets[l].listener && r.queued.Some? == sockets[l].queued.Some?
    requires r.queued.Some? ==> r.queued.value <= sockets[l].queued.value
    ensures Queues(sockets[l := r], closed, given)
  {
    UsesAfterPut(sockets, closed, l, r);
    var all, all' := All(sockets, closed), All(sockets[l := r], closed);
    forall k | k in all' ensures QueueOk(sockets[l := r], given, k, all'[k].queued) {
      assert QueueOk(sockets, given, k, all[k].queued);
      if all'[k].queued.Some? {
        forall q | q in all'[k].queued.value ensures MayQueue(sockets[l := r], given, k, q) {
          assert MayQueue(sockets, given, k, q);
        }
      }
    }
  }

  lemma DequeueClosedKeepsOk(sockets: map<SocketId, Rec>, closed: map<SocketId, Rec>, muxes: map<int, Mux>,
                             given: set<SocketId>, lastId: int, l: SocketId, r: Rec)
    requires Ok(sockets, closed, muxes, given, lastId) && l in closed
    requires r.muxId == closed[l].muxId && r.queued.Some? == closed[l].queued.Some?
    requires r.queued.Some? ==> r.queued.value <= closed[l].queued.value
    ensures Ok(sockets, closed[l := r], muxes, given, lastId)
  {
    hide Counted;
    var all, all' := All(sockets, closed), All(sockets, closed[l := r]);
    assert all' == all[l := r];
    UsesOfPut(all, l, r);
    assert Uses(all)[l] == r.muxId;
    assert Uses(all') == Uses(all);
    forall k | k in all' ensures QueueOk(sockets, given, k, all'[k].queued) {
      assert QueueOk(sockets, given, k, all[k].queued);
    }
  }

  /** Moving a socket that waits nowhere to the closed ones. */
  lemma MoveKeepsOk(sockets: map<SocketId, Rec>, closed: map<SocketId, Rec>, muxes: map<int, Mux>, given: set<SocketId>,
                    lastId: int, u: SocketId, r: Rec)
    requires Ok(sockets, closed, muxes, given, lastId) && u in sockets && Unqueued(All(sockets, closed), u)
    requires r.muxId == sockets[u].muxId && r.queued == sockets[u].queued
    ensures Ok(sockets - {u}, closed[u := r], muxes, given, lastId)
    ensures All(sockets - {u}, closed[u := r]) == All(sockets, closed)[u := r]
  {
    hide Counted;
    var all, all' := All(sockets, closed), All(sockets - {u}, closed[u := r]);
    assert all' == all[u := r];
    UsesOfPut(all, u, r);
    assert Uses(all)[u] == r.muxId;
    assert Uses(all') == Uses(all);
    forall k | k in all' ensures QueueOk(sockets - {u}, given, k, all'[k].queued) {
      assert QueueOk(sockets, given, k, all[k].queued) && all'[k].queued == all[k].queued;
      if all'[k].queued.Some? {
        forall q | q in all'[k].queued.value ensures MayQueue(sockets - {u}, given, k, q) {
          assert MayQueue(sockets, given, k, q);
        }
      }
    }
  }

  /** Destroying a closed socket. */
  lemma DestroyKeepsOk(sockets: map<SocketId, Rec>, closed: map<SocketId, Rec>, muxes: map<int, Mux>,
                       given: set<SocketId>, lastId: int, u: SocketId)
    requires Ok(sockets, closed, muxes, given, lastId) && u in closed
    ensures Ok(sockets, closed - {u}, Released(muxes, closed[u].muxId), given, lastId)
    ensures forall m :: m in muxes ==>
      (m !in Released(muxes, closed[u].muxId) <==> Users(Uses(All(sockets, closed - {u})), m) == {})
  {
    hide Counted;
    var all, all' := All(sockets, closed), All(sockets, closed - {u});
    assert all' == all - {u};
    assert Uses(all') == Uses(all) - {u} && Uses(all)[u] == closed[u].muxId;
    CountedAfterRemove(muxes, Uses(all), u);
    forall k | k in all' ensures QueueOk(sockets, given, k, all'[k].queued) {
      assert QueueOk(sockets, given, k, all[k].queued);
    }
    forall v | v in sockets ensures StatusOk(v, sockets[v], Released(muxes, closed[u].muxId)) {
      assert StatusOk(v, sockets[v], muxes);
    }
  }

  /** The open sockets after the broken socket `u` has been taken out of the listener's sets. */
  function Replaced(sockets: map<SocketId, Rec>, l: SocketId, u: SocketId, now: int): map<SocketId, Rec>
    requires u in sockets && l in sockets
  {
    sockets[u := sockets[u].(status := Closed, timeStamp := now)][l := Dequeued(sockets[l], u)]
  }

  /** The new socket `u` shares the multiplexer `m` at the listener's port and waits in the listener's queue. */
  ghost predicate IsAdmitted(before: map<SocketId, Rec>, after: map<SocketId, Rec>, muxes: map<int, Mux>,
                             muxes': map<int, Mux>, l: SocketId, u: SocketId, m: int)
  {
    && l in before && before[l].queued.Some?
    && m in muxes && muxes[m].port == before[l].port
    && muxes' == muxes[m := muxes[m].(refCount := muxes[m].refCount + 1)]
    && after == before[u := Admitted(before[l], l, m, muxes[m].port)]
                      [l := before[l].(queued := Some(before[l].queued.value + {u}))]
  }

  /** The socket of a new connection. */
  function Admitted(l: Rec, listener: SocketId, m: int, port: int): Rec {
    Rec(Connected, false, 0, Some(listener), None, {}, 0, l.version, l.mss, l.reuse, port, Some(m))
  }

  /** A listener whose connection `u` has been accepted. */
  function Taken(l: Rec, u: SocketId): Rec
    requires l.queued.Some?
  {
    l.(queued := Some(l.queued.value - {u}), accepted := l.accepted + {u})
  }

  lemma OpenHasQueue(sockets: map<SocketId, Rec>, closed: map<SocketId, Rec>, muxes: map<int, Mux>,
                     given: set<SocketId>, lastId: int, l: SocketId)
    requires Ok(sockets, closed, muxes, given, lastId) && l in sockets && sockets[l].status == Listening
    ensures sockets[l].queued.Some?
  {
    assert StatusOk(l, sockets[l], muxes);
  }

  lemma HasListenerIsNone(sockets: map<SocketId, Rec>, closed: map<SocketId, Rec>, muxes: map<int, Mux>,
                          given: set<SocketId>, lastId: int, u: SocketId, l: SocketId)
    requires Ok(sockets, closed, muxes, given, lastId) && u in sockets && l in sockets
    requires sockets[u].listener.Some? && sockets[l].status == Listening
    ensures u != l
    ensures StatusOk(u, sockets[u], muxes) && sockets[u].status in {Connected, Closed}
  {
    assert StatusOk(l, sockets[l], muxes) && StatusOk(u, sockets[u], muxes);
  }

  lemma ListenerHasMux(sockets: map<SocketId, Rec>, closed: map<SocketId, Rec>, muxes: map<int, Mux>,
                       given: set<SocketId>, lastId: int, l: SocketId)
    requires Ok(sockets, closed, muxes, given, lastId) && l in sockets && sockets[l].status == Listening
    ensures sockets[l].muxId.Some? && sockets[l].muxId.value in muxes
    ensures muxes[sockets[l].muxId.value].port == sockets[l].port
  {
    assert StatusOk(l, sockets[l], muxes);
    assert Uses(All(sockets, closed))[l] == sockets[l].muxId;
  }

  lemma CloseKeepsOk(sockets: map<SocketId, Rec>, closed: map<SocketId, Rec>, muxes: map<int, Mux>,
                     given: set<SocketId>, lastId: int, u: SocketId, r: Rec)
    requires Ok(sockets, closed, muxes, given, lastId) && u in sockets && u in given
    requires r.muxId == sockets[u].muxId && r.queued == sockets[u].queued
    ensures Ok(sockets - {u}, closed[u := r], muxes, given, lastId)
  {
    KnownIsUnqueued(sockets, closed, given, u);
    MoveKeepsOk(sockets, closed, muxes, given, lastId, u, r);
  }

  lemma AcceptKeepsOk(sockets: map<SocketId, Rec>, closed: map<SocketId, Rec>, muxes: map<int, Mux>,
                      given: set<SocketId>, lastId: int, l: SocketId, u: SocketId)
    requires Ok(sockets, closed, muxes, given, lastId) && l in sockets && sockets[l].queued.Some?
    requires u in sockets[l].queued.value
    ensures u in sockets && u !in given
    ensures Ok(sockets[l := Taken(sockets[l], u)], closed, muxes, given + {u}, lastId)
  {
    hide Counted, Queues;
    var r := Taken(sockets[l], u);
    var sockets' := sockets[l := r];
    QueueOf(sockets, closed, given, l);
    assert MayQueue(sockets, given, l, u);
    UsesUnchanged(sockets, closed, l, r);
    UsesAfterPut(sockets, closed, l, r);
    FewerQueued(sockets, closed, given, l, r);
    WaitsAtListener(sockets', closed, given, u);
    GivenKeepsQueues(sockets', closed, given, u);
  }

  lemma GivenKeepsQueues(sockets: map<SocketId, Rec>, closed: map<SocketId, Rec>, given: set<SocketId>, u: SocketId)
    requires Queues(sockets, closed, given) && Unqueued(All(sockets, closed), u)
    ensures Queues(sockets, closed, given + {u})
  {
    var all := All(sockets, closed);
    forall k | k in all ensures QueueOk(sockets, given + {u}, k, all[k].queued) {
      assert QueueOk(sockets, given, k, all[k].queued);
      if all[k].queued.Some? {
        forall q | q in all[k].queued.value ensures MayQueue(sockets, given + {u}, k, q) {
          assert MayQueue(sockets, given, k, q);
        }
      }
    }
  }

  lemma AdmitKeepsOk(sockets: map<SocketId, Rec>, closed: map<SocketId, Rec>, muxes: map<int, Mux>,
                     given: set<SocketId>, lastId: int, l: SocketId, m: int)
    requires Ok(sockets, closed, muxes, given, lastId) && l in sockets && sockets[l].status == Listening && m in muxes
    requires sockets[l].queued.Some?
    ensures lastId - 1 !in sockets && lastId - 1 !in closed
    ensures var (u, muxes') := (lastId - 1, muxes[m := muxes[m].(refCount := muxes[m].refCount + 1)]);
            var sockets1 := sockets[u := Admitted(sockets[l], l, m, muxes[m].port)];
            Ok(sockets1[l := sockets[l].(queued := Some(sockets[l].queued.value + {u}))], closed, muxes', given, u)
  {
    hide Counted, Queues, Uses;
    var u := lastId - 1;
    var r := Admitted(sockets[l], l, m, muxes[m].port);
    var r' := sockets[l].(queued := Some(sockets[l].queued.value + {u}));
    UsesAfterPut(sockets, closed, u, r);
    NoUse(sockets, closed, u);
    CountedAfterJoin(muxes, Uses(All(sockets, closed)), u, m);
    UsesUnchanged(sockets[u := r], closed, l, r');
    AdmitKeepsQueues(sockets, closed, given, l, u, r, r');
    assert StatusOk(l, sockets[l], muxes);
  }

  lemma MovedOver(done: set<SocketId>, queue: set<SocketId>, q: SocketId, full: set<SocketId>,
                  sockets: map<SocketId, Rec>, closed: set<SocketId>)
    requires done + queue == full && done !! queue && q in queue
    ensures (done + {q}) + (queue - {q}) == full && done + {q} !! queue - {q} && |queue - {q}| < |queue|
    ensures sockets - (done + {q}) == sockets - done - {q} && closed + (done + {q}) == closed + done + {q}
  {
  }

  lemma NoUse(sockets: map<SocketId, Rec>, closed: map<SocketId, Rec>, u: SocketId)
    requires u !in sockets && u !in closed
    ensures u !in Uses(All(sockets, closed))
  {
  }

  lemma AdmitKeepsQueues(sockets: map<SocketId, Rec>, closed: map<SocketId, Rec>, given: set<SocketId>,
                         l: SocketId, u: SocketId, r: Rec, r': Rec)
    requires Queues(sockets, closed, given) && l in sockets && l !in closed && l != u
    requires u !in sockets && u !in closed && u !in given && r.queued.None? && r.listener == Some(l)
    requires sockets[l].queued.Some? && sockets[l].listener.None?
    requires r' == sockets[l].(queued := Some(sockets[l].queued.value + {u}))
    ensures Queues(sockets[u := r][l := r'], closed, given)
  {
    hide Queues, Uses;
    var sockets1 := sockets[u := r];
    NewInNoQueue(sockets, closed, given, u, r);
    QueueOf(sockets1, closed, given, l);
    assert MayQueue(sockets1, given, l, u);
    QueuesAfterChange(sockets1, closed, given, l, r');
  }

  lemma NewInNoQueue(sockets: map<SocketId, Rec>, closed: map<SocketId, Rec>, given: set<SocketId>, u: SocketId, r: Rec)
    requires Queues(sockets, closed, given) && u !in sockets && u !in closed && r.queued.None?
    ensures Queues(sockets[u := r], closed, given)
  {
    QueuesAfterNew(sockets, closed, given, u, r);
    var all' := All(sockets[u := r], closed);
    forall l | l in all' ensures QueueOk(sockets[u := r], given, l, all'[l].queued) {
      assert QueueOk(sockets[u := r], given + {u}, l, all'[l].queued);
    }
  }

  // ----- closing and destroying

  /** A broken socket that is not given more time: three seconds for a listener, until its data has been
      read for any other. */
  predicate Due(u: SocketId, r: Rec, now: int, waits: set<SocketId>) {
    r.broken && if r.status == Listening then now - r.timeStamp >= 3_000_000 else u !in waits
  }

  predicate Expired(u: SocketId, r: Rec, now: int, busy: set<SocketId>) {
    now - r.timeStamp > 1_000_000 && u !in busy
  }

  /** A connection that was never accepted. */
  function Dropped(r: Rec, now: int): Rec {
    r.(broken := true, status := Closed, timeStamp := now)
  }

  /** The closed socket `u` is as it was, or it waited in the queue that has been closed. */
  predicate ClosedOrDropped(sockets: map<SocketId, Rec>, closed: map<SocketId, Rec>, u: SocketId, r: Rec,
                            queue: set<SocketId>, now: int) {
    if u in queue then u in sockets && r == Dropped(sockets[u], now) else u in closed && r == closed[u]
  }

  lemma NoneDropped(sockets: map<SocketId, Rec>, closed: map<SocketId, Rec>, l: SocketId, now: int)
    ensures forall v :: v in closed && v != l ==> ClosedOrDropped(sockets, closed, v, closed[v], {}, now)
  {
  }

  lemma OneMoreDropped(sockets: map<SocketId, Rec>, closed: map<SocketId, Rec>, before: map<SocketId, Rec>,
                       after: map<SocketId, Rec>, l: SocketId, q: SocketId, queue: set<SocketId>, now: int)
    requires forall v :: v in before && v != l ==> ClosedOrDropped(sockets, closed, v, before[v], queue, now)
    requires q in sockets && q in after && after[q] == Dropped(sockets[q], now)
    requires forall v :: v in after && v != l && v != q ==> v in before && after[v] == before[v]
    ensures forall v :: v in after && v != l ==> ClosedOrDropped(sockets, closed, v, after[v], queue + {q}, now)
  {
  }

  function Expiring(closed: map<SocketId, Rec>, now: int, busy: set<SocketId>): set<SocketId> {
    set u | u in closed && Expired(u, closed[u], now, busy)
  }

  /** The socket came in through a listener that is destroyed. */
  predicate Orphan(r: Rec, destroyed: set<SocketId>) {
    r.listener.Some? && r.listener.value in destroyed
  }

  /** What is closed now does not expire now. */
  lemma SameExpiring(sockets: map<SocketId, Rec>, before: map<SocketId, Rec>, after: map<SocketId, Rec>, now: int,
                     busy: set<SocketId>)
    requires ClosedSince(sockets, before, after, now)
    ensures Expiring(after, now, busy) == Expiring(before, now, busy)
  {
    forall u | u in after ensures u in Expiring(after, now, busy) <==> u in Expiring(before, now, busy) {
      if u !in before {
        assert ClosedNow(after[u], sockets[u], now);
      } else {
        assert Kept(after[u], before[u]);
      }
    }
  }

  /** Nothing about the socket has changed but that some of its connections no longer wait. */
  predicate Kept(r: Rec, r': Rec) {
    && r == r'.(queued := r.queued, accepted := r.accepted)
    && r.accepted <= r'.accepted && r.queued.Some? == r'.queued.Some?
    && (r.queued.Some? ==> r.queued.value <= r'.queued.value)
  }

  /** A socket that has been closed now. */
  predicate ClosedNow(r: Rec, r': Rec, now: int) {
    Kept(r, r'.(status := Closed, timeStamp := now))
  }

  /** What was closed before is as it was, and what has been closed since was open and is stamped now. */
  ghost predicate ClosedSince(sockets: map<SocketId, Rec>, before: map<SocketId, Rec>, after: map<SocketId, Rec>,
                              now: int) {
    && (forall u :: u in after && u !in before ==> u in sockets && ClosedNow(after[u], sockets[u], now))
    && (forall u :: u in before ==> u in after && Kept(after[u], before[u]))
  }

  lemma NoneClosed(sockets: map<SocketId, Rec>, closed: map<SocketId, Rec>, now: int)
    ensures ClosedSince(sockets, closed, closed, now)
    ensures forall u :: u in sockets ==> Kept(sockets[u], sockets[u])
  {
  }

  lemma StillKept(first: map<SocketId, Rec>, middle: map<SocketId, Rec>, last: map<SocketId, Rec>)
    requires forall u :: u in middle ==> u in first && Kept(middle[u], first[u])
    requires forall u :: u in last ==> u in middle && Kept(last[u], middle[u])
    ensures forall u :: u in last ==> Kept(last[u], first[u])
  {
  }

  lemma OneMoreClosed(sockets: map<SocketId, Rec>, before: map<SocketId, Rec>, middle: map<SocketId, Rec>,
                      after: map<SocketId, Rec>, r: Rec, u: SocketId, now: int)
    requires ClosedSince(sockets, before, middle, now) && u in sockets
    requires after.Keys == middle.Keys + {u} && ClosedNow(after[u], r, now) && Kept(r, sockets[u]) && u !in middle
    requires forall v :: v in middle ==> Kept(after[v], middle[v])
    ensures ClosedSince(sockets, before, after, now)
  {
  }

  lemma SameDue(u: SocketId, r: Rec, r': Rec, now: int, waits: set<SocketId>)
    requires Kept(r, r')
    ensures Due(u, r, now, waits) == Due(u, r', now, waits)
  {
  }

  lemma ClosedIsNotOpen(sockets: map<SocketId, Rec>, closed: map<SocketId, Rec>, muxes: map<int, Mux>,
                        given: set<SocketId>, lastId: int, u: SocketId)
    requires Ok(sockets, closed, muxes, given, lastId) && u in closed
    ensures u !in sockets
  {
  }

  lemma OpenIsNotClosed(sockets: map<SocketId, Rec>, closed: map<SocketId, Rec>, muxes: map<int, Mux>,
                        given: set<SocketId>, lastId: int, u: SocketId)
    requires Ok(sockets, closed, muxes, given, lastId) && u in sockets
    ensures u !in closed
  {
  }

  lemma WaitsNowhere(sockets: map<SocketId, Rec>, closed: map<SocketId, Rec>, muxes: map<int, Mux>,
                     given: set<SocketId>, lastId: int, u: SocketId)
    requires Ok(sockets, closed, muxes, given, lastId) && u in sockets
    requires var l := sockets[u].listener;
             l.Some? && l.value in All(sockets, closed) && All(sockets, closed)[l.value].queued.Some? ==>
               u !in All(sockets, closed)[l.value].queued.value
    ensures Unqueued(All(sockets, closed), u)
  {
    WaitsAtListener(sockets, closed, given, u);
  }

  lemma QueuedIsOpen(sockets: map<SocketId, Rec>, closed: map<SocketId, Rec>, muxes: map<int, Mux>,
                     given: set<SocketId>, lastId: int, l: SocketId, q: SocketId)
    requires Ok(sockets, closed, muxes, given, lastId) && l in closed && closed[l].queued.Some?
    requires q in closed[l].queued.value
    ensures q in sockets && q !in closed && sockets[q].listener == Some(l) && l !in sockets && q != l
  {
    QueueOf(sockets, closed, given, l);
    assert MayQueue(sockets, given, l, q);
  }
}
