/** What the steps of the protocol do, said without the functions that define them: what is sent, and what
    becomes of the numbers both ends keep. */
module Effects {
  import opened Packets
  import opened SenderSpec
  import opened ReceiverSpec
  import opened Protocol
  import NakCoding
  import Runs

  // ----- the sender

  /** What the user sends becomes a message of its own behind those before, and its packets carry it. */
  lemma DataAccepted(w: World, data: seq<Byte>, inOrder: bool, w': World)
    requires Next(w, UserSends(data, inOrder), w')
    ensures w'.snd.mss > 0 && w'.snd.log == w.snd.log + [Message(data, w.snd.nextNo, inOrder)]
    ensures w.snd.frags <= w'.snd.frags
    ensures var fs := w'.snd.frags[|w.snd.frags|..];
            && Bytes(fs) == data && Framed(fs, w.snd.nextNo, inOrder, true)
            && (forall i :: 0 <= i < |fs| ==> 0 < |fs[i].data| <= w.snd.mss)
    ensures w' == w.(snd := w.snd.(log := w'.snd.log, frags := w'.snd.frags, nextNo := w'.snd.nextNo))
  {
    hide Fragments;
    SentIs([]);
    FragmentsAreFaithful(Message(data, w.snd.nextNo, inOrder), w.snd.mss);
    assert w'.snd.frags[|w.snd.frags|..] == Fragments(Message(data, w.snd.nextNo, inOrder), w.snd.mss);
  }

  /** Both windows allow packet `n`, which is the next one, and there is such a packet. */
  ghost predicate MaySendNext(s: Snd, cwnd: int) {
    var n := s.curr + 1;
    0 <= n < |s.frags| && n < s.lastAck + s.window && n < s.lastAck + cwnd
  }

  /** A packet is sent for the first time exactly when both windows allow it and there is one. */
  lemma FirstTransmission(w: World, cwnd: int, w': World)
    requires Inv(w) && Next(w, PacksNew(cwnd), w')
    ensures var n := w.snd.curr + 1;
            if MaySendNext(w.snd, cwnd) then
              && w'.snd == w.snd.(curr := n) && w'.rcv == w.rcv
              && w'.net == w.net + {Data(n, w.snd.frags[n])}
            else w' == w
  {
    SentIs(PackNew(w.snd, cwnd).1);
  }

  lemma SentIs(out: seq<Msg>)
    ensures out == [] ==> Sent(out) == {}
    ensures |out| == 1 ==> Sent(out) == {out[0]}
  {
  }

  /** The smallest lost number is taken. */
  lemma LossTaken(w: World, w': World)
    requires Next(w, PicksLost, w')
    ensures w'.snd.picked.Some? && w' == w.(snd := w'.snd)
    ensures var n := w'.snd.picked.value;
            && n in w.snd.loss && (forall x :: x in w.snd.loss ==> n <= x)
            && w'.snd == w.snd.(loss := w.snd.loss - {n}, picked := Some(n))
  {
    SentIs([]);
  }

  /** A lost packet is sent again, as it was, exactly when it has not been acknowledged meanwhile. */
  lemma Retransmission(w: World, w': World)
    requires Inv(w) && Next(w, PacksPicked, w')
    ensures var n := w.snd.picked.value;
            && w'.snd == w.snd.(picked := None) && w'.rcv == w.rcv && n < |w.snd.frags|
            && w'.net == w.net + if n >= w.snd.dataAck then {Data(n, w.snd.frags[n])} else {}
  {
    SentIs(PackPicked(w.snd).1);
  }

  /** When the timer expires and no loss is known, everything unacknowledged is taken for lost. */
  lemma Expiry(w: World, w': World)
    requires Inv(w) && Next(w, Expires, w')
    ensures w' == w.(snd := w'.snd) && RetakesAll(w.snd, w'.snd)
  {
    SentIs([]);
  }

  ghost predicate RetakesAll(s: Snd, s': Snd) {
    && s' == s.(loss := s'.loss)
    && (s.loss == {} ==> forall n :: n in s'.loss <==> s.lastAck <= n <= s.curr)
    && (s.loss != {} ==> s'.loss == s.loss)
  }

  function Smaller(x: int, y: int): int {
    if x < y then x else y
  }

  function Larger(x: int, y: int): int {
    if x > y then x else y
  }

  /** The window of an acknowledgement is taken over unless a later number has been acknowledged; the acknowledged
      packets are released and no longer lost. */
  ghost predicate TakesOver(s: Snd, ack: int, window: int, s': Snd) {
    && s'.lastAck == Larger(s.lastAck, ack)
    && s'.window == (if ack >= s.lastAck then window else s.window)
    && s'.dataAck == Larger(s.dataAck, ack)
    && (forall n :: n in s'.loss <==> n in s.loss && n >= s'.dataAck)
    && s' == s.(lastAck := s'.lastAck, window := s'.window, dataAck := s'.dataAck, loss := s'.loss,
                lastAck2 := s'.lastAck2)
  }

  lemma AcceptedIsTakenOver(s: Snd, no: int, ack: int, window: int, due: bool)
    requires s.dataAck <= s.lastAck <= s.curr + 1 <= |s.frags| && forall x :: x in s.loss ==> s.dataAck <= x
    ensures var s' := OnAck(s, no, ack, window, due).0;
            if ack > s.curr + 1 then s'.broken else TakesOver(s, ack, window, s')
  {
  }

  /** An acknowledgement is answered when that is due or when it was the last one answered. */
  predicate MustAnswer(s: Snd, no: int, due: bool) {
    due || no == s.lastAck2
  }

  lemma AckTaken(w: World, no: int, ack: int, window: int, due: bool, w': World)
    requires Inv(w) && Next(w, SenderGets(Ack(no, ack, window), due), w')
    ensures TakesOver(w.snd, ack, window, w'.snd) && w'.rcv == w.rcv
    ensures if MustAnswer(w.snd, no, due) then w'.net == w.net + {Ack2(no)} && w'.snd.lastAck2 == no
            else w'.net == w.net && w'.snd.lastAck2 == w.snd.lastAck2
  {
    assert MsgInv(Ack(no, ack, window), w.snd, w.rcv);
    AcceptedIsTakenOver(w.snd, no, ack, window, due);
    SentIs(OnAck(w.snd, no, ack, window, due).1);
  }

  /** A light acknowledgement moves the acknowledged number and leaves the window's right edge alone. */
  lemma LightAckTaken(w: World, ack: int, due: bool, w': World)
    requires Next(w, SenderGets(LightAck(ack), due), w')
    ensures var s' := w'.snd;
            && s'.lastAck == Larger(w.snd.lastAck, ack) && s'.lastAck + s'.window == w.snd.lastAck + w.snd.window
            && w' == w.(snd := w.snd.(lastAck := s'.lastAck, window := s'.window))
  {
    SentIs([]);
  }

  // ----- the receiver

  /** A packet is stored exactly when it is new and there is room for it.  What it leaves out is missing from then
      on; a packet that was missing no longer is. */
  lemma DataStored(w: World, n: int, f: Frag, positive: bool, w': World)
    requires Inv(w) && Next(w, ReceiverGets(Data(n, f), positive), w')
    ensures Stores(w.rcv, n, f, w'.rcv) && w'.snd == w.snd
  {
    ArrivalIsStored(w.rcv, n, f);
  }

  lemma ArrivalIsStored(r: Rcv, n: int, f: Frag)
    requires ReceiverInv(r)
    ensures Stores(r, n, f, OnData(r, n, f).0)
  {
  }

  ghost predicate Stores(r: Rcv, n: int, f: Frag, r': Rcv) {
    if n !in r.stored && r.lastAck <= n < RightEdge(r) then
      && r'.stored == r.stored[n := f] && r'.curr == Larger(r.curr, n)
      && (forall x :: x in r'.loss <==> (x in r.loss || r.curr < x < n) && x != n)
      && r' == r.(stored := r'.stored, curr := r'.curr, loss := r'.loss)
    else r' == r
  }

  /** When a packet leaves a gap, one report is sent at once, and it speaks of exactly the numbers that are missing
      from then on. */
  lemma GapReported(w: World, n: int, f: Frag, positive: bool, w': World)
    requires Inv(w) && Next(w, ReceiverGets(Data(n, f), positive), w')
    ensures ReportsExactly(w, w', w'.rcv.loss - w.rcv.loss)
  {
    hide SenderInv, AgreeInv, StreamInv, MessageInv, MsgInv, OnData, NakCoding.Reported;
    var out := OnData(w.rcv, n, f).1;
    GapIsReported(w.rcv, n, f);
    SentIs(out);
    if out != [] {
      assert Nak(out[0].items) == out[0];
    }
  }

  lemma GapIsReported(r: Rcv, n: int, f: Frag)
    requires ReceiverInv(r)
    ensures var (r', out) := OnData(r, n, f); Reports(out, r'.loss - r.loss)
  {
    hide NoteArrival, NakCoding.Reported;
    if n !in r.stored && r.lastAck <= n < RightEdge(r) {
      ArrivalReports(r.(stored := r.stored[n := f]), n);
    }
  }

  /** What the detection of a loss adds to the loss list is what it reports. */
  lemma ArrivalReports(r: Rcv, n: int)
    requires forall x :: x in r.loss ==> x <= r.curr
    ensures var (r', out) := NoteArrival(r, n); Reports(out, r'.loss - r.loss)
  {
    if n > r.curr + 1 {
      OneItem([LossReport(r.curr + 1, n - 1)]);
      assert r.curr + 1 in NoteArrival(r, n).0.loss - r.loss;
    }
  }

  ghost predicate Reports(out: seq<Msg>, missing: set<int>) {
    if missing == {} then out == []
    else |out| == 1 && out[0].Nak? && NakCoding.Reported(out[0].items) == missing
  }

  ghost predicate ReportsExactly(w: World, w': World, missing: set<int>) {
    if missing == {} then w'.net == w.net
    else exists items :: NakCoding.Reported(items) == missing && w'.net == w.net + {Nak(items)}
  }

  /** `n` is the smallest number that has not been stored. */
  predicate IsFirstMissing(r: Rcv, n: int) {
    0 <= n && n !in r.stored && forall m :: 0 <= m < n ==> m in r.stored
  }

  /** The acknowledgement timer: whenever something new has come in or it is time to repeat, everything up to the
      first missing number is acknowledged, and an acknowledgement is sent if that is news to the sender. */
  lemma AckSent(w: World, repeat: bool, n: int, w': World)
    requires Inv(w) && Next(w, AckTimer(repeat), w') && IsFirstMissing(w.rcv, n)
    ensures w'.snd == w.snd && w'.rcv.lastAck == n
    ensures if AckIsDue(w.rcv, repeat, w'.rcv) then
              AckGoesOut(w, w', IncAck(w.rcv.ackNo), n, Larger(2, RoomLeft(w'.rcv)))
            else w' == w.(rcv := w.rcv.(lastAck := n))
  {
    hide SenderInv, AgreeInv, StreamInv, MessageInv, MsgInv;
    AckIsFirstMissing(w.rcv);
    FirstMissingIsOne(w.rcv, n, AckValue(w.rcv));
    SentIs(SendAck(w.rcv, repeat).1);
  }

  /** The sender is not known to know what is acknowledged, and that is new or should be repeated. */
  predicate AckIsDue(r: Rcv, repeat: bool, r': Rcv) {
    r'.lastAck > r.lastAckAck && (r'.lastAck > r.lastAck || repeat)
  }

  lemma FirstMissingIsAcked(r: Rcv, repeat: bool)
    requires ReceiverInv(r)
    ensures var r' := SendAck(r, repeat).0; IsFirstMissing(r, r'.lastAck) && IsFirstMissing(r', r'.lastAck)
    ensures var (r', out) := SendAck(r, repeat);
            (out != []) == AckIsDue(r, repeat, r')
    ensures var (r', out) := SendAck(r, repeat);
            out != [] ==> |out| == 1 && out[0] == Ack(IncAck(r.ackNo), r'.lastAck, Larger(2, RoomLeft(r')))
  {
    AckIsFirstMissing(r);
  }

  /** The slots of the receive buffer beyond the acknowledged part, all but one. */
  function RoomLeft(r: Rcv): int {
    RightEdge(r) - r.lastAck
  }

  lemma FirstMissingIsOne(r: Rcv, n: int, m: int)
    requires IsFirstMissing(r, n) && IsFirstMissing(r, m)
    ensures n == m
  {
  }

  /** An acknowledgement is sent and remembered, with those before it unless they are too many. */
  ghost predicate AckGoesOut(w: World, w': World, no: int, n: int, window: int) {
    var (acks, acks') := (w.rcv.acks, w'.rcv.acks);
    && |acks'| == Smaller(|acks| + 1, 1023)
    && w'.net == w.net + {Ack(no, n, window)}
    && w'.rcv == w.rcv.(lastAck := n, ackNo := no, acks := acks')
    && acks' == acks[|acks| + 1 - |acks'|..] + [AckRecord(no, n)]
  }

  /** The numbers of acknowledgements count up and start again at 0 after the largest `int`. */
  lemma AckNumbersCount(no: int)
    requires 0 <= no <= 0x7FFF_FFFF
    ensures IncAck(no) == (no + 1) % 0x8000_0000
  {
  }

  /** A packet would be accepted. */
  ghost predicate Accepts(r: Rcv, n: int, f: Frag) {
    n in OnData(r, n, f).0.stored
  }

  /** The window announced is the room there is: a packet that has not come yet is accepted exactly when it lies
      within it.  A window of two is announced, too, when there is less room than that. */
  lemma WindowIsRoom(r: Rcv, n: int, f: Frag)
    requires ReceiverInv(r) && n !in r.stored && n >= r.lastAck
    ensures var window := AdvertisedWindow(r);
            && window >= 2
            && (window > 2 ==> (Accepts(r, n, f) <==> n < r.lastAck + window))
            && (window == 2 && n >= r.lastAck + 2 ==> !Accepts(r, n, f))
            && RightEdge(r) <= r.lastAck + window <= RightEdge(r) + 2
  {
  }

  /** Every acknowledgement that is sent announces the room there is. */
  lemma RoomAnnounced(w: World, repeat: bool, w': World, m: Msg, n: int, f: Frag)
    requires Inv(w) && Next(w, AckTimer(repeat), w') && m in w'.net && m !in w.net
    requires n !in w'.rcv.stored
    ensures m.Ack? && m.ack == w'.rcv.lastAck && m.window >= 2
    ensures m.window > 2 && n >= m.ack ==> (Accepts(w'.rcv, n, f) <==> n < m.ack + m.window)
    ensures m.window == 2 && n >= m.ack + 2 ==> !Accepts(w'.rcv, n, f)
    ensures m.ack + m.window >= RightEdge(w'.rcv)
  {
    hide StreamInv, MessageInv, SenderInv, AgreeInv;
    AckTimerStep(w, repeat, w');
    SentIs(SendAck(w.rcv, repeat).1);
    if n >= w'.rcv.lastAck {
      WindowIsRoom(w'.rcv, n, f);
    }
  }

  /** A light acknowledgement says the first missing number, unless the sender is known to know it. */
  lemma LightAckSent(w: World, n: int, w': World)
    requires Inv(w) && Next(w, LightAckDue, w') && IsFirstMissing(w.rcv, n)
    ensures w' == w.(net := w.net + if n == w.rcv.lastAckAck then {} else {LightAck(n)})
  {
    AckIsFirstMissing(w.rcv);
    FirstMissingIsOne(w.rcv, n, AckValue(w.rcv));
    SentIs(SendLightAck(w.rcv));
  }

  /** The answer to acknowledgement `i`, the first one remembered with its number: what it acknowledged is
      acknowledged, and it and all before it are forgotten. */
  lemma Ack2Taken(w: World, no: int, positive: bool, i: nat, w': World)
    requires Inv(w) && Next(w, ReceiverGets(Ack2(no), positive), w')
    requires i <= |w.rcv.acks| && (forall j :: 0 <= j < i ==> w.rcv.acks[j].ackNo != no)
    requires i < |w.rcv.acks| ==> w.rcv.acks[i].ackNo == no
    ensures w'.snd == w.snd && w'.net == w.net
    ensures if i == |w.rcv.acks| then w' == w
            else && w'.rcv == w.rcv.(acks := w.rcv.acks[i + 1..], lastAckAck := w'.rcv.lastAckAck)
                 && w'.rcv.lastAckAck ==
                    if positive then Larger(w.rcv.lastAckAck, w.rcv.acks[i].ack) else w.rcv.lastAckAck
  {
    SentIs([]);
    assert FindAck(w.rcv.acks, no) == i;
  }

  lemma OneItem(items: seq<LossItem>)
    requires |items| == 1
    ensures NakCoding.Reported(items) == NakCoding.ReportedBy(items[0])
  {
    assert items[..0] == [];
  }

  // ----- the sender's limit

  /** The receive buffer had room up to `limit`, or up to two numbers less, at a moment when not more than `ack` was
      acknowledged. */
  predicate IsEdge(w: World, ack: int, limit: int) {
    w.rcv.lastAck <= ack && RightEdge(w.rcv) <= limit <= RightEdge(w.rcv) + 2
  }

  ghost predicate WasEdge(ws: seq<World>, t: nat, ack: int, limit: int)
    requires t < |ws|
  {
    exists j :: 0 <= j <= t && IsEdge(ws[j], ack, limit)
  }

  lemma WasEdgeBefore(ws: seq<World>, t: nat, ack: int, ack': int, limit: int)
    requires t + 1 < |ws| && WasEdge(ws, t, ack, limit) && ack <= ack'
    ensures WasEdge(ws, t + 1, ack', limit)
  {
    var j :| 0 <= j <= t && IsEdge(ws[j], ack, limit);
    assert IsEdge(ws[j], ack', limit);
  }

  lemma AnnouncesEdge(w: World, repeat: bool, w': World)
    requires Inv(w) && Next(w, AckTimer(repeat), w')
    ensures w'.snd == w.snd
    ensures forall m :: m in w'.net && m !in w.net ==> m.Ack? && IsEdge(w', m.ack, m.ack + m.window)
  {
    hide SenderInv, AgreeInv, StreamInv, MessageInv, MsgInv;
    AckIsFirstMissing(w.rcv);
    AckTimerStep(w, repeat, w');
    SentIs(SendAck(w.rcv, repeat).1);
  }

  /** The sender's limit stays or becomes the limit an acknowledgement announces. */
  ghost predicate LimitFrom(w: World, s: Snd) {
    || (s.lastAck + s.window == w.snd.lastAck + w.snd.window && w.snd.lastAck <= s.lastAck)
    || exists m :: m in w.net && m.Ack? && m.ack <= s.lastAck && s.lastAck + s.window == m.ack + m.window
  }

  lemma LimitMoves(w: World, step: Step, w': World)
    requires Inv(w) && Next(w, step, w')
    ensures LimitFrom(w, w'.snd)
    ensures forall m :: m in w'.net && m.Ack? && m !in w.net ==> IsEdge(w', m.ack, m.ack + m.window)
  {
    hide SenderInv, ReceiverInv, AgreeInv, StreamInv, MessageInv, RecvMsg, SkipTaken, Recv, OnAck2, AcceptAck, IsEdge;
    match step
    case SenderGets(m, due) =>
      if m.Ack? {
        AckTaken(w, m.ackNo, m.ack, m.window, due, w');
      } else if m.LightAck? {
        LightAckTaken(w, m.lightAck, due, w');
      } else if m.Nak? {
        assert MsgInv(m, w.snd, w.rcv);
        NakKeepsInv(w.snd, w.rcv, m.items);
      }
    case AckTimer(repeat) =>
      AnnouncesEdge(w, repeat, w');
    case _ =>
  }

  /** The limits that acknowledgements on the network announce. */
  ghost predicate AcksWereEdges(ws: seq<World>, t: nat)
    requires t < |ws|
  {
    forall m :: m in ws[t].net && m.Ack? ==> WasEdge(ws, t, m.ack, m.ack + m.window)
  }

  ghost predicate LimitWas(ws: seq<World>, t: nat)
    requires t < |ws|
  {
    WasEdge(ws, t, ws[t].snd.lastAck, ws[t].snd.lastAck + ws[t].snd.window)
  }

  /** At every moment of a run, the sender's limit is the right edge that the receive buffer had at some moment, or at
      most two numbers more, and so is what every acknowledgement on the network announces. */
  lemma {:induction false} LimitWasEdge(ws: seq<World>, steps: seq<Step>, mss: nat, size: nat, isStream: bool, t: nat)
    requires IsRun(ws, steps, mss, size, isStream) && mss > 0 && size >= 3 && t < |ws|
    ensures LimitWas(ws, t) && AcksWereEdges(ws, t)
  {
    if t == 0 {
      assert IsEdge(ws[0], 0, size);
    } else {
      hide *;
      LimitWasEdge(ws, steps, mss, size, isStream, t - 1);
      Runs.RunKeepsInv(ws, steps, mss, size, isStream, t - 1);
      Runs.StepAt(ws, steps, mss, size, isStream, t - 1);
      LimitMoves(ws[t - 1], steps[t - 1], ws[t]);
      LimitIsEdge(ws, t);
      AcksAreEdges(ws, t);
    }
  }

  lemma LimitIsEdge(ws: seq<World>, t: nat)
    requires 0 < t < |ws| && LimitFrom(ws[t - 1], ws[t].snd)
    requires LimitWas(ws, t - 1) && AcksWereEdges(ws, t - 1)
    ensures LimitWas(ws, t)
  {
    hide WasEdge;
    var (w, s) := (ws[t - 1], ws[t].snd);
    var limit := s.lastAck + s.window;
    if limit == w.snd.lastAck + w.snd.window && w.snd.lastAck <= s.lastAck {
      WasEdgeBefore(ws, t - 1, w.snd.lastAck, s.lastAck, limit);
    } else {
      var m :| m in w.net && m.Ack? && m.ack <= s.lastAck && limit == m.ack + m.window;
      WasEdgeBefore(ws, t - 1, m.ack, s.lastAck, limit);
    }
  }

  lemma AcksAreEdges(ws: seq<World>, t: nat)
    requires 0 < t < |ws| && AcksWereEdges(ws, t - 1)
    requires forall m :: m in ws[t].net && m.Ack? && m !in ws[t - 1].net ==> IsEdge(ws[t], m.ack, m.ack + m.window)
    ensures AcksWereEdges(ws, t)
  {
    forall m | m in ws[t].net && m.Ack? ensures WasEdge(ws, t, m.ack, m.ack + m.window) {
      if m in ws[t - 1].net {
        WasEdgeBefore(ws, t - 1, m.ack, m.ack, m.ack + m.window);
      }
    }
  }
}
