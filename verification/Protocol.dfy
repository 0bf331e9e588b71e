/** Two connected peers and the network between them: one of them sends, the other receives.

    `net` holds every packet ever sent.  A step may deliver any packet of it, at any time and any
    number of times, or never; so the network loses, duplicates and reorders at will. */
module Protocol {
  import opened Packets
  import opened SenderSpec
  import opened ReceiverSpec
  import NakCoding

  datatype World = World(snd: Snd, rcv: Rcv, net: set<Msg>)

  /** `cwnd`, `due` and `positive` stand for the congestion controller and the clock, which may
      say anything. */
  datatype Step =
    | UserSends(data: seq<Byte>, inOrder: bool)
    | PicksLost
    | PacksPicked
    | PacksNew(cwnd: int)
    | Expires
    | SenderGets(toSender: Msg, due: bool)
    | ReceiverGets(toReceiver: Msg, positive: bool)
    | AckTimer(repeat: bool)
    | LightAckDue
    | UserReceives(len: nat)
    | UserAsksForMessage
    | UserReceivesMessage(maxLen: nat)

  ghost predicate Init(w: World, mss: nat, size: nat, isStream: bool) {
    w == World(InitSnd(mss, size, w.snd.lastAck2), InitRcv(size, isStream), {})
  }

  ghost function Sent(out: seq<Msg>): set<Msg> {
    set m | m in out
  }

  ghost predicate SndTo(w: World, res: (Snd, seq<Msg>), w': World) {
    w' == World(res.0, w.rcv, w.net + Sent(res.1))
  }

  ghost predicate RcvTo(w: World, res: (Rcv, seq<Msg>), w': World) {
    w' == World(w.snd, res.0, w.net + Sent(res.1))
  }

  ghost predicate Next(w: World, step: Step, w': World) {
    match step
    case UserSends(data, inOrder) =>
      data != [] && w.snd.mss > 0 && SndTo(w, (UserSend(w.snd, data, inOrder), []), w')
    case PicksLost =>
      w.snd.loss != {} && w.snd.picked.None? && SndTo(w, (Pick(w.snd), []), w')
    case PacksPicked =>
      w.snd.picked.Some? && SndTo(w, PackPicked(w.snd), w')
    case PacksNew(cwnd) =>
      SndTo(w, PackNew(w.snd, cwnd), w')
    case Expires =>
      SndTo(w, (OnExpire(w.snd), []), w')
    case SenderGets(m, due) =>
      m in w.net && SndTo(w, SenderStep(w.snd, m, due), w')
    case ReceiverGets(m, positive) =>
      m in w.net && RcvTo(w, ReceiverStep(w.rcv, m, positive), w')
    case AckTimer(repeat) =>
      RcvTo(w, SendAck(w.rcv, repeat), w')
    case LightAckDue =>
      RcvTo(w, (w.rcv, SendLightAck(w.rcv)), w')
    case UserReceives(len) =>
      w.rcv.isStream && RcvTo(w, (Recv(w.rcv, len), []), w')
    case UserAsksForMessage =>
      !w.rcv.isStream && RcvTo(w, (SkipTaken(w.rcv), []), w')
    case UserReceivesMessage(len) =>
      !w.rcv.isStream && RecvMsg(w.rcv, len, w'.rcv) && w' == w.(rcv := w'.rcv)
  }

  /** `processCtrl` on the sending side. */
  ghost function SenderStep(s: Snd, m: Msg, due: bool): (Snd, seq<Msg>) {
    match m
    case Ack(no, ack, window) => OnAck(s, no, ack, window, due)
    case LightAck(ack) => (OnLightAck(s, ack), [])
    case Nak(items) => (OnNak(s, items), [])
    case _ => (s, [])
  }

  /** `processData` and `processCtrl` on the receiving side. */
  ghost function ReceiverStep(r: Rcv, m: Msg, positive: bool): (Rcv, seq<Msg>) {
    match m
    case Data(n, f) => OnData(r, n, f)
    case Ack2(no) => (OnAck2(r, no, positive), [])
    case _ => (r, [])
  }

  /** A run: the worlds it goes through and the steps between them. */
  ghost predicate IsRun(ws: seq<World>, steps: seq<Step>, mss: nat, size: nat, isStream: bool) {
    && |ws| == |steps| + 1
    && Init(ws[0], mss, size, isStream)
    && forall i :: 0 <= i < |steps| ==> Next(ws[i], steps[i], ws[i + 1])
  }

  // ----- the invariant

  /** The sender's numbers are in order, its history is the packet stream of its log, and every
      number in the loss list is within the sent but unacknowledged part, which is shorter than
      the receive buffer. */
  ghost predicate SenderInv(s: Snd, size: nat) {
    && s.mss > 0 && GoodLog(s.log) && s.frags == Stream(s.log, s.mss)
    && !s.broken && !s.fault
    && 0 <= s.dataAck <= s.lastAck <= s.curr + 1 <= |s.frags|
    && (forall x :: x in s.loss ==> s.dataAck <= x <= s.curr)
    && (s.picked.Some? ==> 0 <= s.picked.value <= s.curr)
    && s.curr < s.dataAck + size
    && s.lastAck + s.window <= s.dataAck + size
  }

  /** The receiver's loss list is exactly the missing numbers, and everything below the
      acknowledged number has been stored. */
  ghost predicate ReceiverInv(r: Rcv) {
    && 0 <= r.start <= r.lastAck <= r.curr + 1
    && 0 <= r.lastAckAck <= r.lastAck
    && r.lastAck <= r.start + r.size - 1
    && (forall n :: n in r.stored ==> 0 <= n <= r.curr && n < r.start + r.size - 1)
    && (forall n :: n in r.loss <==> r.lastAck <= n <= r.curr && n !in r.stored)
    && (forall n :: 0 <= n < r.lastAck ==> n in r.stored)
    && AcksRise(r.acks, r.lastAckAck, r.lastAck)
    && r.curr < r.start + r.size - 1
  }

  /** The acknowledgements remembered are in the order they were sent in, and none is older than the last one
      the sender has acknowledged. */
  ghost predicate AcksRise(acks: seq<AckRecord>, first: int, last: int) {
    && (forall i :: 0 <= i < |acks| ==> first <= acks[i].ack <= last)
    && (forall i, j :: 0 <= i < j < |acks| ==> acks[i].ack <= acks[j].ack)
  }

  /** The receiver stores only what the sender sent, as it sent it, and acknowledgements the sender
      holds are true. */
  ghost predicate AgreeInv(s: Snd, r: Rcv) {
    && (forall n :: n in r.stored ==> 0 <= n <= s.curr < |s.frags| && r.stored[n] == s.frags[n])
    && r.curr <= s.curr
    && s.dataAck <= r.lastAck
    && (forall n :: 0 <= n < s.lastAck ==> n in r.stored)
    && s.lastAck + s.window <= RightEdge(r) + 2
  }

  /** One past the last packet number the receive buffer has room for. */
  function RightEdge(r: Rcv): int {
    r.start + r.size - 1
  }

  ghost predicate MsgInv(m: Msg, s: Snd, r: Rcv) {
    match m
    case Data(n, f) => 0 <= n <= s.curr < |s.frags| && f == s.frags[n]
    case Ack(_, ack, window) =>
      0 <= ack <= r.lastAck && window <= MaxWindow(r.size) && ack + window <= RightEdge(r) + 2
    case LightAck(ack) => 0 <= ack <= r.curr + 1 && forall n :: 0 <= n < ack ==> n in r.stored
    case Ack2(_) => true
    case Nak(items) => forall i :: 0 <= i < |items| ==> ItemInv(items[i], r)
  }

  function MaxWindow(size: nat): int {
    if size - 1 < 2 then 2 else size - 1
  }

  predicate ItemInv(item: LossItem, r: Rcv) {
    match item
    case Single(n) => 0 <= n <= r.curr
    case Pair(a, b) => 0 <= a <= b <= r.curr
  }

  /** What the user has read so far is the beginning of the packet stream. */
  ghost predicate StreamInv(s: Snd, r: Rcv) {
    r.isStream ==>
      && r.taken == {} && r.got == []
      && 0 <= r.start <= |s.frags|
      && (r.notch > 0 ==> r.start < r.lastAck && r.start < |s.frags| && r.notch < |s.frags[r.start].data|)
      && r.out == Bytes(s.frags[..r.start]) + (if r.notch > 0 then s.frags[r.start].data[..r.notch] else [])
  }

  /** A delivery is one whole message of the stream. */
  ghost predicate IsMessageRun(fs: seq<Frag>, d: Delivery) {
    && 0 <= d.first <= d.last < |fs|
    && IsFirst(fs[d.first]) && IsLast(fs[d.last])
    && (forall n :: d.first <= n < d.last ==> !IsLast(fs[n]))
    && d.data == Truncated(Bytes(fs[d.first..d.last + 1]), d.len)
  }

  predicate Covers(d: Delivery, n: int) {
    d.first <= n <= d.last
  }

  /** The deliveries are whole messages, they do not overlap, together they are exactly what was
      read, and in-order messages come after everything before them. */
  ghost predicate MessageInv(s: Snd, r: Rcv) {
    !r.isStream ==>
      && r.notch == 0 && r.out == []
      && (forall i :: 0 <= i < |r.got| ==> IsMessageRun(s.frags, r.got[i]))
      && ReadIsDelivered(r)
      && InOrderComeLast(s.frags, r.got)
  }

  ghost predicate ReadIsDelivered(r: Rcv) {
    && (forall n :: n in r.taken ==> r.start <= n && n in r.stored)
    && (forall i, n :: 0 <= i < |r.got| && Covers(r.got[i], n) ==> n < r.start || n in r.taken)
    && (forall n :: 0 <= n < r.start || n in r.taken ==> Delivered(r.got, n))
    && (forall i, j, n :: 0 <= i < j < |r.got| ==> !(Covers(r.got[i], n) && Covers(r.got[j], n)))
  }

  ghost predicate InOrderComeLast(fs: seq<Frag>, got: seq<Delivery>)
    requires forall i :: 0 <= i < |got| ==> 0 <= got[i].last < |fs|
  {
    forall i :: 0 <= i < |got| && InOrder(fs[got[i].last]) ==>
      forall n :: 0 <= n < got[i].first ==> Delivered(got[..i], n)
  }

  ghost predicate Delivered(got: seq<Delivery>, n: int) {
    exists i :: 0 <= i < |got| && Covers(got[i], n)
  }

  ghost predicate Inv(w: World) {
    && w.rcv.size >= 3
    && SenderInv(w.snd, w.rcv.size)
    && ReceiverInv(w.rcv)
    && AgreeInv(w.snd, w.rcv)
    && (forall m :: m in w.net ==> MsgInv(m, w.snd, w.rcv))
    && StreamInv(w.snd, w.rcv)
    && MessageInv(w.snd, w.rcv)
  }

  lemma InitInv(w: World, mss: nat, size: nat, isStream: bool)
    requires Init(w, mss, size, isStream) && mss > 0 && size >= 3
    ensures Inv(w)
  {
  }

  // ----- nothing already said on the network becomes false

  ghost predicate Advances(s: Snd, r: Rcv, s': Snd, r': Rcv) {
    && s.frags <= s'.frags && s.curr <= s'.curr < |s'.frags|
    && r.size == r'.size && r.isStream == r'.isStream
    && r.start <= r'.start && r.lastAck <= r'.lastAck && r.curr <= r'.curr
    && (forall n :: n in r.stored ==> n in r'.stored)
  }

  lemma MsgStable(m: Msg, s: Snd, r: Rcv, s': Snd, r': Rcv)
    requires MsgInv(m, s, r) && Advances(s, r, s', r')
    ensures MsgInv(m, s', r')
  {
  }

  lemma NetStable(net: set<Msg>, s: Snd, r: Rcv, s': Snd, r': Rcv)
    requires forall m :: m in net ==> MsgInv(m, s, r)
    requires Advances(s, r, s', r')
    ensures forall m :: m in net ==> MsgInv(m, s', r')
  {
    forall m | m in net ensures MsgInv(m, s', r') {
      MsgStable(m, s, r, s', r');
    }
  }

  // ----- sender steps

  lemma UserSendsStep(w: World, data: seq<Byte>, inOrder: bool, w': World)
    requires Inv(w) && Next(w, UserSends(data, inOrder), w')
    ensures Inv(w')
  {
    var s, s' := w.snd, w'.snd;
    var m := Message(data, s.nextNo, inOrder);
    assert s'.log[..|s'.log| - 1] == s.log;
    assert s'.frags == Stream(s'.log, s'.mss);
    NetStable(w.net, s, w.rcv, s', w.rcv);
    HistoryGrows(s, s', w.rcv);
  }

  /** What has been read stays a part of the history when the history grows at its end. */
  lemma HistoryGrows(s: Snd, s': Snd, r: Rcv)
    requires s.frags <= s'.frags && StreamInv(s, r) && MessageInv(s, r)
    ensures StreamInv(s', r) && MessageInv(s', r)
  {
    if r.isStream {
      assert s'.frags[..r.start] == s.frags[..r.start];
    } else {
      forall i | 0 <= i < |r.got| ensures IsMessageRun(s'.frags, r.got[i]) {
        var d := r.got[i];
        assert s'.frags[d.first..d.last + 1] == s.frags[d.first..d.last + 1];
      }
    }
  }

  /** A sender step keeps the invariant when it keeps the sender's part of it and what it emits is
      true. */
  lemma SenderPart(w: World, s': Snd, out: seq<Msg>)
    requires Inv(w)
    requires s'.frags == w.snd.frags && w.snd.curr <= s'.curr
    requires SenderInv(s', w.rcv.size) && AgreeInv(s', w.rcv)
    requires forall i :: 0 <= i < |out| ==> MsgInv(out[i], s', w.rcv)
    ensures Inv(World(s', w.rcv, w.net + Sent(out)))
  {
    NetStable(w.net, w.snd, w.rcv, s', w.rcv);
    HistoryGrows(w.snd, s', w.rcv);
  }

  lemma PickStep(w: World, w': World)
    requires Inv(w) && Next(w, PicksLost, w')
    ensures Inv(w')
  {
    SenderPart(w, w'.snd, []);
  }

  lemma PackPickedStep(w: World, w': World)
    requires Inv(w) && Next(w, PacksPicked, w')
    ensures Inv(w')
  {
    SenderPart(w, w'.snd, PackPicked(w.snd).1);
  }

  lemma PackNewStep(w: World, cwnd: int, w': World)
    requires Inv(w) && Next(w, PacksNew(cwnd), w')
    ensures Inv(w')
  {
    SenderPart(w, w'.snd, PackNew(w.snd, cwnd).1);
  }

  lemma ExpireStep(w: World, w': World)
    requires Inv(w) && Next(w, Expires, w')
    ensures Inv(w')
  {
    SenderPart(w, w'.snd, []);
  }

  lemma AckKeepsInv(s: Snd, r: Rcv, ack: int, window: int)
    requires r.size >= 3 && SenderInv(s, r.size) && ReceiverInv(r) && AgreeInv(s, r)
    requires MsgInv(Ack(0, ack, window), s, r)
    ensures var s' := AcceptAck(s, ack, window);
            && SenderInv(s', r.size) && AgreeInv(s', r)
            && s' == s.(window := s'.window, lastAck := s'.lastAck, dataAck := s'.dataAck, loss := s'.loss)
  {
  }

  lemma OnAckKeepsInv(s: Snd, r: Rcv, no: int, ack: int, window: int, due: bool)
    requires r.size >= 3 && SenderInv(s, r.size) && ReceiverInv(r) && AgreeInv(s, r)
    requires MsgInv(Ack(no, ack, window), s, r)
    ensures var (s', out) := OnAck(s, no, ack, window, due);
            && SenderInv(s', r.size) && AgreeInv(s', r)
            && s'.frags == s.frags && s'.curr == s.curr
            && forall i :: 0 <= i < |out| ==> out[i].Ack2?
  {
    hide AcceptAck, ReceiverInv;
    var s0 := if due || no == s.lastAck2 then s.(lastAck2 := no) else s;
    AckKeepsInv(s0, r, ack, window);
  }

  lemma LightAckKeepsInv(s: Snd, r: Rcv, ack: int)
    requires SenderInv(s, r.size) && AgreeInv(s, r) && MsgInv(LightAck(ack), s, r)
    ensures var s' := OnLightAck(s, ack);
            && SenderInv(s', r.size) && AgreeInv(s', r)
            && s'.frags == s.frags && s'.curr == s.curr
            && s'.lastAck + s'.window == s.lastAck + s.window
  {
  }

  /** The numbers of a report that the sender has not seen acknowledged. */
  function Unacknowledged(s: Snd, reported: set<int>): set<int> {
    set x | x in reported && x >= s.lastAck
  }

  lemma NakItemKeepsInv(s: Snd, r: Rcv, item: LossItem)
    requires SenderInv(s, r.size) && AgreeInv(s, r) && ItemInv(item, r)
    ensures var s' := OnLossItem(s, item);
            SenderInv(s', r.size) && s' == s.(loss := s.loss + Unacknowledged(s, NakCoding.ReportedBy(item)))
  {
  }

  /** A loss report puts exactly its numbers that are not yet acknowledged into the loss list. */
  lemma {:induction false} NakKeepsInv(s: Snd, r: Rcv, items: seq<LossItem>)
    requires SenderInv(s, r.size) && AgreeInv(s, r)
    requires forall i :: 0 <= i < |items| ==> ItemInv(items[i], r)
    ensures var s' := OnNak(s, items);
            SenderInv(s', r.size) && s' == s.(loss := s.loss + Unacknowledged(s, NakCoding.Reported(items)))
    decreases |items|
  {
    if items != [] {
      NakItemKeepsInv(s, r, items[0]);
      NakKeepsInv(OnLossItem(s, items[0]), r, items[1..]);
      NakCoding.ReportedFirst(items);
    }
  }

  lemma SenderGetsStep(w: World, m: Msg, due: bool, w': World)
    requires Inv(w) && Next(w, SenderGets(m, due), w')
    ensures Inv(w')
  {
    hide SenderInv, ReceiverInv, StreamInv, MessageInv, AcceptAck, OnLightAck, OnNak, OnAck;
    assert MsgInv(m, w.snd, w.rcv);
    var res := SenderStep(w.snd, m, due);
    match m {
      case Ack(no, ack, window) =>
        OnAckKeepsInv(w.snd, w.rcv, no, ack, window, due);
      case LightAck(ack) =>
        LightAckKeepsInv(w.snd, w.rcv, ack);
      case Nak(items) =>
        NakKeepsInv(w.snd, w.rcv, items);
      case _ =>
    }
    SenderPart(w, res.0, res.1);
  }

  // ----- receiver steps

  /** A receiver step keeps the invariant when it keeps the receiver's part of it and what it emits
      is true. */
  lemma ReceiverPart(w: World, r': Rcv, out: seq<Msg>)
    requires Inv(w)
    requires Advances(w.snd, w.rcv, w.snd, r')
    requires ReceiverInv(r') && AgreeInv(w.snd, r')
    requires StreamInv(w.snd, r') && MessageInv(w.snd, r')
    requires forall i :: 0 <= i < |out| ==> MsgInv(out[i], w.snd, r')
    ensures Inv(World(w.snd, r', w.net + Sent(out)))
  {
    NetStable(w.net, w.snd, w.rcv, w.snd, r');
  }

  /** Steps that leave the reading end of the buffer alone keep what is known about reading. */
  lemma ReadingUnaffected(s: Snd, r: Rcv, r': Rcv)
    requires StreamInv(s, r) && MessageInv(s, r)
    requires Advances(s, r, s, r')
    requires r'.start == r.start && r'.taken == r.taken && r'.notch == r.notch && r'.out == r.out && r'.got == r.got
    ensures StreamInv(s, r') && MessageInv(s, r')
  {
  }

  lemma StoredKeepsInv(s: Snd, r: Rcv, n: int, f: Frag)
    requires SenderInv(s, r.size) && ReceiverInv(r) && AgreeInv(s, r) && MsgInv(Data(n, f), s, r)
    ensures ReceiverInv(OnData(r, n, f).0)
  {
  }

  lemma StoredAgrees(s: Snd, r: Rcv, n: int, f: Frag)
    requires SenderInv(s, r.size) && ReceiverInv(r) && AgreeInv(s, r) && MsgInv(Data(n, f), s, r)
    ensures AgreeInv(s, OnData(r, n, f).0)
    ensures Advances(s, r, s, OnData(r, n, f).0)
    ensures forall i :: 0 <= i < |OnData(r, n, f).1| ==> MsgInv(OnData(r, n, f).1[i], s, OnData(r, n, f).0)
  {
  }

  lemma DataStep(w: World, n: int, f: Frag, positive: bool, w': World)
    requires Inv(w) && Next(w, ReceiverGets(Data(n, f), positive), w')
    ensures Inv(w')
  {
    hide MsgInv, StreamInv, MessageInv, ReceiverInv, AgreeInv, SenderInv;
    assert MsgInv(Data(n, f), w.snd, w.rcv);
    StoredKeepsInv(w.snd, w.rcv, n, f);
    StoredAgrees(w.snd, w.rcv, n, f);
    ReadingUnaffected(w.snd, w.rcv, w'.rcv);
    ReceiverPart(w, w'.rcv, OnData(w.rcv, n, f).1);
  }

  lemma Ack2KeepsInv(r: Rcv, no: int, positive: bool)
    requires ReceiverInv(r)
    ensures var r' := OnAck2(r, no, positive);
            ReceiverInv(r') && r' == r.(acks := r'.acks, lastAckAck := r'.lastAckAck)
  {
  }

  lemma Ack2Step(w: World, no: int, positive: bool, w': World)
    requires Inv(w) && Next(w, ReceiverGets(Ack2(no), positive), w')
    ensures Inv(w')
  {
    hide MsgInv, StreamInv, MessageInv, ReceiverInv, OnAck2;
    Ack2KeepsInv(w.rcv, no, positive);
    ReadingUnaffected(w.snd, w.rcv, w'.rcv);
    ReceiverPart(w, w'.rcv, []);
  }

  /** The acknowledged number is the smallest missing one. */
  lemma AckIsFirstMissing(r: Rcv)
    requires ReceiverInv(r)
    ensures var ack := AckValue(r);
            && r.lastAck <= ack <= r.curr + 1
            && ack !in r.stored
            && forall n :: 0 <= n < ack ==> n in r.stored
  {
    var ack := AckValue(r);
    forall n | 0 <= n < ack ensures n in r.stored {
      assert n !in r.loss;
    }
  }

  lemma SendAckKeepsInv(s: Snd, r: Rcv, repeat: bool)
    requires r.size >= 3 && ReceiverInv(r)
    ensures var (r', out) := SendAck(r, repeat);
            && ReceiverInv(r')
            && r' == r.(lastAck := r'.lastAck, ackNo := r'.ackNo, acks := r'.acks)
            && r.lastAck <= r'.lastAck
            && (forall i :: 0 <= i < |out| ==> MsgInv(out[i], s, r'))
  {
    hide AcksRise, StoreAck;
    AckIsFirstMissing(r);
    var ack := AckValue(r);
    AcksGoOn(r.acks, r.lastAckAck, r.lastAck, AckRecord(IncAck(r.ackNo), ack));
  }

  lemma AcksGoOn(acks: seq<AckRecord>, first: int, last: int, e: AckRecord)
    requires AcksRise(acks, first, last) && last <= e.ack
    ensures AcksRise(acks, first, e.ack)
    ensures first <= e.ack ==> AcksRise(StoreAck(acks, e), first, e.ack)
  {
  }

  lemma AckTimerStep(w: World, repeat: bool, w': World)
    requires Inv(w) && Next(w, AckTimer(repeat), w')
    ensures Inv(w')
  {
    hide MsgInv, StreamInv, MessageInv, ReceiverInv, SendAck;
    SendAckKeepsInv(w.snd, w.rcv, repeat);
    ReadingUnaffected(w.snd, w.rcv, w'.rcv);
    ReceiverPart(w, w'.rcv, SendAck(w.rcv, repeat).1);
  }

  lemma LightAckStep(w: World, w': World)
    requires Inv(w) && Next(w, LightAckDue, w')
    ensures Inv(w')
  {
    AckIsFirstMissing(w.rcv);
    ReceiverPart(w, w.rcv, SendLightAck(w.rcv));
  }

  // ----- reading a stream

  /** The bytes before the position `notch` bytes into packet `p`. */
  ghost function Upto(fs: seq<Frag>, p: nat, notch: nat): seq<Byte>
    requires p <= |fs| && (notch > 0 ==> p < |fs| && notch <= |fs[p].data|)
  {
    Bytes(fs[..p]) + (if notch > 0 then fs[p].data[..notch] else [])
  }

  lemma UptoInside(fs: seq<Frag>, p: nat, notch: nat)
    requires p < |fs| && notch <= |fs[p].data|
    ensures Upto(fs, p, notch) == Bytes(fs[..p]) + fs[p].data[..notch]
  {
  }

  lemma UptoWithin(fs: seq<Frag>, p: nat, notch: nat, k: nat)
    requires p < |fs| && notch + k <= |fs[p].data|
    ensures Upto(fs, p, notch) + fs[p].data[notch..][..k] == Upto(fs, p, notch + k)
  {
    UptoInside(fs, p, notch);
    UptoInside(fs, p, notch + k);
    Join(Bytes(fs[..p]), fs[p].data, notch, k);
  }

  lemma Join(b: seq<Byte>, d: seq<Byte>, notch: nat, k: nat)
    requires notch + k <= |d|
    ensures b + d[..notch] + d[notch..][..k] == b + d[..notch + k]
  {
    assert d[..notch] + d[notch..][..k] == d[..notch + k];
  }

  lemma UptoNext(fs: seq<Frag>, p: nat, notch: nat)
    requires p < |fs| && notch < |fs[p].data|
    ensures Upto(fs, p, notch) + fs[p].data[notch..] == Upto(fs, p + 1, 0)
  {
    var d := fs[p].data;
    assert fs[..p + 1][..p] == fs[..p];
    assert d[..notch] + d[notch..] == d;
    assert Upto(fs, p, notch) == Bytes(fs[..p]) + d[..notch];
  }

  lemma Regroup(a: seq<Byte>, left: seq<Byte>, b: seq<Byte>, rest: seq<Byte>, c: seq<Byte>)
    requires a + left == b && b + rest == c
    ensures a + (left + rest) == c
  {
    assert a + (left + rest) == (a + left) + rest;
  }

  /** Reading returns exactly the bytes between the old position and the new one, and stops short of
      the requested length only where the acknowledged part ends. */
  lemma {:induction false} ReadFromMeaning(stored: map<int, Frag>, fs: seq<Frag>, p: nat, ack: nat, notch: nat, rs: nat)
    requires Readable(stored, p, ack, notch)
    requires ack <= |fs| && forall n :: p <= n < ack ==> stored[n] == fs[n]
    ensures var c := ReadFrom(stored, p, ack, notch, rs);
            && Upto(fs, p, notch) + c.data == Upto(fs, c.pos, c.notch)
            && |c.data| <= rs
            && (|c.data| == rs || c.pos == ack)
    decreases ack - p
  {
    var c := ReadFrom(stored, p, ack, notch, rs);
    if p == ack || rs == 0 {
    } else if rs < |fs[p].data[notch..]| {
      UptoWithin(fs, p, notch, rs);
    } else {
      var left := fs[p].data[notch..];
      var c1 := ReadFrom(stored, p + 1, ack, 0, rs - |left|);
      ReadFromMeaning(stored, fs, p + 1, ack, 0, rs - |left|);
      UptoNext(fs, p, notch);
      Regroup(Upto(fs, p, notch), left, Upto(fs, p + 1, 0), c1.data, Upto(fs, c1.pos, c1.notch));
    }
  }

  lemma StreamHasNoEmptyPacket(s: Snd, size: nat, n: nat)
    requires SenderInv(s, size) && n < |s.frags|
    ensures s.frags[n].data != []
  {
    var k := MsgOf(s.log, s.mss, n);
    StreamFlags(s.log, s.mss, k, n);
  }

  lemma AckedIsReadable(s: Snd, r: Rcv)
    requires SenderInv(s, r.size) && ReceiverInv(r) && AgreeInv(s, r) && StreamInv(s, r) && r.isStream
    ensures Readable(r.stored, r.start, r.lastAck, r.notch)
  {
    forall n | r.start <= n < r.lastAck ensures n in r.stored && r.stored[n].data != [] {
      StreamHasNoEmptyPacket(s, r.size, n);
    }
  }

  lemma UserReceivesStep(w: World, len: nat, w': World)
    requires Inv(w) && Next(w, UserReceives(len), w')
    ensures Inv(w')
  {
    var s, r := w.snd, w.rcv;
    AckedIsReadable(s, r);
    ReadFromMeaning(r.stored, s.frags, r.start, r.lastAck, r.notch, len);
    ReceiverPart(w, w'.rcv, []);
  }

  // ----- reading messages

  lemma SkipKeepsInv(s: Snd, r: Rcv)
    requires ReceiverInv(r) && AgreeInv(s, r) && MessageInv(s, r) && !r.isStream
    ensures var r' := SkipTaken(r);
            && ReceiverInv(r') && AgreeInv(s, r') && MessageInv(s, r')
            && r' == r.(start := r'.start, taken := r'.taken) && r.start <= r'.start
  {
    SkipTakenMeaning(r);
  }

  lemma ScanStep(w: World, w': World)
    requires Inv(w) && Next(w, UserAsksForMessage, w')
    ensures Inv(w')
  {
    SkipKeepsInv(w.snd, w.rcv);
    ReceiverPart(w, w'.rcv, []);
  }

  predicate IsRead(r: Rcv, n: int) {
    0 <= n < r.start || n in r.taken
  }

  predicate InMessage(s: Snd, k: nat, n: int)
    requires s.mss > 0 && k < |s.log|
  {
    MsgStart(s.log, s.mss, k) <= n < MsgStart(s.log, s.mss, k + 1)
  }

  /** A delivery that touches a message is that message. */
  lemma DeliveryIsMessage(s: Snd, d: Delivery, k: nat, n: int)
    requires s.mss > 0 && GoodLog(s.log) && s.frags == Stream(s.log, s.mss)
    requires IsMessageRun(s.frags, d) && k < |s.log| && InMessage(s, k, n) && Covers(d, n)
    ensures d.first == MsgStart(s.log, s.mss, k) && d.last + 1 == MsgStart(s.log, s.mss, k + 1)
  {
    hide Stream, MsgStart, Bytes, Truncated;
    var j := RunIsMessage(s.log, s.mss, d.first, d.last);
    if j < k {
      MsgStartMonotone(s.log, s.mss, j + 1, k);
    } else if k < j {
      MsgStartMonotone(s.log, s.mss, k + 1, j);
    }
  }

  /** A message is read as a whole or not at all. */
  lemma ReadAsAWhole(s: Snd, r: Rcv, k: nat, n: int, m: int)
    requires SenderInv(s, r.size) && MessageInv(s, r) && !r.isStream && k < |s.log|
    requires InMessage(s, k, n) && InMessage(s, k, m) && IsRead(r, n)
    ensures IsRead(r, m)
  {
    assert Delivered(r.got, n);
    var i :| 0 <= i < |r.got| && Covers(r.got[i], n);
    DeliveryIsMessage(s, r.got[i], k, n);
    assert Covers(r.got[i], m);
  }

  /** When the first packet of the acknowledged part is unread, it starts a message. */
  lemma StartIsHead(s: Snd, r: Rcv) returns (k: nat)
    requires SenderInv(s, r.size) && ReceiverInv(r) && AgreeInv(s, r) && MessageInv(s, r) && !r.isStream
    requires r.start < |s.frags| && r.start !in r.taken
    ensures k < |s.log| && r.start == MsgStart(s.log, s.mss, k) && InMessage(s, k, r.start)
  {
    k := MsgOf(s.log, s.mss, r.start);
    var head := MsgStart(s.log, s.mss, k);
    if head < r.start {
      ReadAsAWhole(s, r, k, head, r.start);
    }
  }

  lemma UnreadMessageIsWhole(s: Snd, r: Rcv, k: nat)
    requires SenderInv(s, r.size) && AgreeInv(s, r) && MessageInv(s, r) && !r.isStream && k < |s.log|
    requires var p, q := MsgStart(s.log, s.mss, k), MsgStart(s.log, s.mss, k + 1) - 1;
             p <= q && 0 <= r.start <= p && p !in r.taken && forall n :: p <= n <= q ==> n in r.stored
    ensures Whole(r, MsgStart(s.log, s.mss, k), MsgStart(s.log, s.mss, k + 1) - 1)
  {
    var p, q := MsgStart(s.log, s.mss, k), MsgStart(s.log, s.mss, k + 1) - 1;
    forall n | p <= n <= q
      ensures n !in r.taken && (IsFirst(r.stored[n]) <==> n == p) && (IsLast(r.stored[n]) <==> n == q)
    {
      StreamFlags(s.log, s.mss, k, n);
      if n in r.taken {
        ReadAsAWhole(s, r, k, n, p);
      }
    }
  }

  lemma WholeIsMessage(s: Snd, r: Rcv, p: int, q: int) returns (j: nat)
    requires SenderInv(s, r.size) && AgreeInv(s, r) && Whole(r, p, q)
    ensures j < |s.log| && p == MsgStart(s.log, s.mss, j) && q + 1 == MsgStart(s.log, s.mss, j + 1)
  {
    assert p in r.stored && q in r.stored;
    forall n | p <= n < q ensures !IsLast(s.frags[n]) {
      assert n in r.stored;
    }
    j := RunIsMessage(s.log, s.mss, p, q);
  }

  /** The first deliverable message within the acknowledged part starts where the reader stands. */
  lemma AckedDeliveryIsNext(s: Snd, r: Rcv, p: int, q: int)
    requires SenderInv(s, r.size) && ReceiverInv(r) && AgreeInv(s, r) && MessageInv(s, r) && !r.isStream
    requires r.start < r.lastAck ==> r.start !in r.taken
    requires FirstDeliverable(r, p, q) && q < r.lastAck
    ensures p == r.start
  {
    hide Stream, MsgStart, MessageInv;
    var j := WholeIsMessage(s, r, p, q);
    assert r.start in r.stored;
    var k := StartIsHead(s, r);
    if j < k {
      MsgStartMonotone(s.log, s.mss, j, k);
    } else {
      MsgStartMonotone(s.log, s.mss, k + 1, j + 1);
      UnreadMessageIsWhole(s, r, k);
      assert Deliverable(r, r.start, MsgStart(s.log, s.mss, k + 1) - 1);
    }
  }

  lemma SliceIsSent(s: Snd, r: Rcv, p: int, q: int)
    requires AgreeInv(s, r) && p <= q && forall n :: p <= n <= q ==> n in r.stored
    ensures 0 <= p && q < |s.frags| && Slice(r.stored, p, q) == s.frags[p..q + 1]
  {
    assert p in r.stored && q in r.stored;
  }

  lemma TakeIsMessageRun(s: Snd, r: Rcv, p: int, q: int, len: nat)
    requires AgreeInv(s, r) && Deliverable(r, p, q)
    ensures var got := Take(r, p, q, len).got;
            |got| == |r.got| + 1 && got == r.got + [got[|r.got|]]
            && got[|r.got|].first == p && got[|r.got|].last == q && IsMessageRun(s.frags, got[|r.got|])
  {
    SliceIsSent(s, r, p, q);
    assert p in r.stored && q in r.stored;
    forall n | p <= n < q ensures !IsLast(s.frags[n]) {
      assert n in r.stored;
    }
  }

  lemma DeliveredMore(got: seq<Delivery>, d: Delivery, n: int)
    requires Delivered(got, n) || Covers(d, n)
    ensures Delivered(got + [d], n)
  {
    if Covers(d, n) {
      assert Covers((got + [d])[|got|], n);
    } else {
      var i :| 0 <= i < |got| && Covers(got[i], n);
      assert Covers((got + [d])[i], n);
    }
  }

  lemma TakeIsDelivered(r: Rcv, p: int, q: int, len: nat)
    requires ReceiverInv(r) && ReadIsDelivered(r)
    requires Deliverable(r, p, q) && (q < r.lastAck ==> p == r.start)
    ensures ReadIsDelivered(Take(r, p, q, len))
  {
    hide Slice, Bytes, Truncated;
    var r' := Take(r, p, q, len);
    var d := r'.got[|r.got|];
    assert p in r.stored && q in r.stored;
    assert d.first == p && d.last == q;
    forall n | 0 <= n < r'.start || n in r'.taken ensures Delivered(r'.got, n) {
      DeliveredMore(r.got, d, n);
    }
    forall i, n | 0 <= i < |r.got| ensures !(Covers(r'.got[i], n) && Covers(d, n)) {
      assert Covers(r.got[i], n) ==> n < r.start || n in r.taken;
    }
  }

  lemma AppendComesLast(fs: seq<Frag>, got: seq<Delivery>, d: Delivery)
    requires forall i :: 0 <= i < |got| ==> 0 <= got[i].last < |fs|
    requires InOrderComeLast(fs, got) && 0 <= d.last < |fs|
    requires InOrder(fs[d.last]) ==> forall n :: 0 <= n < d.first ==> Delivered(got, n)
    ensures InOrderComeLast(fs, got + [d])
  {
    hide Delivered;
    var got' := got + [d];
    assert got'[..|got|] == got;
    forall i | 0 <= i < |got'| && InOrder(fs[got'[i].last])
      ensures forall n :: 0 <= n < got'[i].first ==> Delivered(got'[..i], n)
    {
      assert i < |got| ==> got'[..i] == got[..i];
    }
  }

  lemma TakeKeepsMessageInv(s: Snd, r: Rcv, p: int, q: int, len: nat)
    requires ReceiverInv(r) && AgreeInv(s, r) && MessageInv(s, r) && !r.isStream
    requires Deliverable(r, p, q) && (q < r.lastAck ==> p == r.start)
    ensures MessageInv(s, Take(r, p, q, len))
  {
    hide InOrderComeLast, IsMessageRun, Slice, Bytes, Truncated;
    var r' := Take(r, p, q, len);
    TakeIsMessageRun(s, r, p, q, len);
    TakeIsDelivered(r, p, q, len);
    MessageRunInRange(s.frags, r.got);
    MessageRunInRange(s.frags, r'.got);
    var d := r'.got[|r.got|];
    assert q in r.stored;
    forall n | InOrder(s.frags[d.last]) && 0 <= n < d.first ensures Delivered(r.got, n) {
    }
    AppendComesLast(s.frags, r.got, d);
  }

  lemma MessageRunInRange(fs: seq<Frag>, got: seq<Delivery>)
    requires forall i :: 0 <= i < |got| ==> IsMessageRun(fs, got[i])
    ensures forall i :: 0 <= i < |got| ==> 0 <= got[i].last < |fs|
  {
  }

  lemma TakeKeepsInv(s: Snd, r: Rcv, p: int, q: int, len: nat)
    requires ReceiverInv(r) && AgreeInv(s, r) && Deliverable(r, p, q) && !r.isStream
    ensures var r' := Take(r, p, q, len);
            && ReceiverInv(r') && AgreeInv(s, r') && r' == r.(start := r'.start, taken := r'.taken, got := r'.got)
            && r.start <= r'.start
  {
    assert p in r.stored && q in r.stored;
  }

  lemma ReceivesMessageStep(w: World, len: nat, w': World)
    requires Inv(w) && Next(w, UserReceivesMessage(len), w')
    ensures Inv(w')
  {
    hide ReceiverInv, StreamInv, MessageInv, MsgInv, SkipTaken, Deliverable, LooksEmpty;
    var s, r := w.snd, w.rcv;
    var r0 := SkipTaken(r);
    SkipTakenMeaning(r);
    SkipKeepsInv(s, r);
    if w'.rcv != r0 {
      var p, q :| FirstDeliverable(r0, p, q) && w'.rcv == Take(r0, p, q, len);
      if q < r0.lastAck {
        AckedDeliveryIsNext(s, r0, p, q);
      }
      TakeKeepsMessageInv(s, r0, p, q, len);
      TakeKeepsInv(s, r0, p, q, len);
    }
    ReceiverPart(w, w'.rcv, []);
    assert w'.net == w.net + Sent([]);
  }
}
