/** What holds in every run of two connected peers over a network that loses, duplicates and
    reorders packets. */
module Runs {
  import opened Packets
  import opened SenderSpec
  import opened ReceiverSpec
  import opened Protocol
  import HeaderWord

  lemma StepKeepsInv(w: World, step: Step, w': World)
    requires Inv(w) && Next(w, step, w')
    ensures Inv(w')
  {
    match step
    case UserSends(data, inOrder) => UserSendsStep(w, data, inOrder, w');
    case PicksLost => PickStep(w, w');
    case PacksPicked => PackPickedStep(w, w');
    case PacksNew(cwnd) => PackNewStep(w, cwnd, w');
    case Expires => ExpireStep(w, w');
    case SenderGets(m, due) => SenderGetsStep(w, m, due, w');
    case ReceiverGets(m, positive) => ReceiverGetsAnyStep(w, m, positive, w');
    case AckTimer(repeat) => AckTimerStep(w, repeat, w');
    case LightAckDue => LightAckStep(w, w');
    case UserReceives(len) => UserReceivesStep(w, len, w');
    case UserAsksForMessage => ScanStep(w, w');
    case UserReceivesMessage(len) => ReceivesMessageStep(w, len, w');
  }

  lemma ReceiverGetsAnyStep(w: World, m: Msg, positive: bool, w': World)
    requires Inv(w) && Next(w, ReceiverGets(m, positive), w')
    ensures Inv(w')
  {
    match m
    case Data(n, f) => DataStep(w, n, f, positive, w');
    case Ack2(no) => Ack2Step(w, no, positive, w');
    case _ => ReceiverPart(w, w.rcv, []);
  }

  lemma {:induction false} RunKeepsInv(ws: seq<World>, steps: seq<Step>, mss: nat, size: nat, isStream: bool, i: nat)
    requires IsRun(ws, steps, mss, size, isStream) && mss > 0 && size >= 3 && i < |ws|
    ensures Inv(ws[i]) && ws[i].rcv.size == size && ws[i].rcv.isStream == isStream
  {
    if i == 0 {
      InitInv(ws[0], mss, size, isStream);
    } else {
      hide Inv, Next, IsRun;
      RunKeepsInv(ws, steps, mss, size, isStream, i - 1);
      StepAt(ws, steps, mss, size, isStream, i - 1);
      StepKeepsInv(ws[i - 1], steps[i - 1], ws[i]);
      StepKeepsSetup(ws[i - 1], steps[i - 1], ws[i]);
    }
  }

  lemma StepAt(ws: seq<World>, steps: seq<Step>, mss: nat, size: nat, isStream: bool, i: nat)
    requires IsRun(ws, steps, mss, size, isStream) && i + 1 < |ws|
    ensures i < |steps| && Next(ws[i], steps[i], ws[i + 1])
  {
    hide Next;
  }

  lemma StepKeepsSetup(w: World, step: Step, w': World)
    requires Inv(w) && Next(w, step, w')
    ensures w'.rcv.size == w.rcv.size && w'.rcv.isStream == w.rcv.isStream
  {
    hide Inv, SkipTaken, ReadFrom, Readable;
    SkipTakenMeaning(w.rcv);
  }

  lemma {:induction false} BytesPrefix(fs: seq<Frag>, p: nat)
    requires p <= |fs|
    ensures Bytes(fs[..p]) <= Bytes(fs)
  {
    if p == |fs| {
      assert fs[..p] == fs;
    } else {
      BytesPrefix(fs[..|fs| - 1], p);
      assert fs[..|fs| - 1][..p] == fs[..p];
    }
  }

  lemma UptoIsPrefix(fs: seq<Frag>, p: nat, notch: nat)
    requires p <= |fs| && (notch > 0 ==> p < |fs| && notch <= |fs[p].data|)
    ensures Upto(fs, p, notch) <= Bytes(fs)
  {
    BytesPrefix(fs, p);
    if notch > 0 {
      BytesPrefix(fs, p + 1);
      assert fs[..p + 1][..p] == fs[..p];
      assert Upto(fs, p, notch) <= Bytes(fs[..p + 1]);
    }
  }

  /** Stream mode: at every moment of every run, the bytes `recv` has returned are a prefix of the
      bytes `send` has accepted on the other side. */
  lemma StreamDelivery(ws: seq<World>, steps: seq<Step>, mss: nat, size: nat, i: nat)
    requires IsRun(ws, steps, mss, size, true) && mss > 0 && size >= 3 && i < |ws|
    ensures ws[i].rcv.out <= UserBytes(ws[i].snd.log)
  {
    RunKeepsInv(ws, steps, mss, size, true, i);
    var s, r := ws[i].snd, ws[i].rcv;
    StreamCarriesBytes(s.log, s.mss);
    UptoIsPrefix(s.frags, r.start, r.notch);
  }

  /** The `i`-th delivery is message `k` of the log, cut to the user's buffer. */
  ghost predicate DeliversMessage(w: World, i: nat, k: nat)
    requires w.snd.mss > 0 && i < |w.rcv.got|
  {
    var d := w.rcv.got[i];
    && k < |w.snd.log|
    && d.first == MsgStart(w.snd.log, w.snd.mss, k)
    && d.last + 1 == MsgStart(w.snd.log, w.snd.mss, k + 1)
    && d.data == Truncated(w.snd.log[k].data, d.len)
  }

  ghost predicate DeliversSome(w: World, i: nat)
    requires w.snd.mss > 0 && i < |w.rcv.got|
  {
    exists k :: DeliversMessage(w, i, k)
  }

  lemma DeliveryHasMessage(w: World, i: nat) returns (k: nat)
    requires Inv(w) && !w.rcv.isStream && i < |w.rcv.got|
    ensures DeliversMessage(w, i, k)
  {
    hide Stream, MsgStart, Bytes, Truncated, StreamInv, ReceiverInv, AgreeInv, MsgInv;
    var d := w.rcv.got[i];
    k := RunIsMessage(w.snd.log, w.snd.mss, d.first, d.last);
  }

  lemma MessageNotEmpty(s: Snd, k: nat)
    requires s.mss > 0 && GoodLog(s.log) && k < |s.log|
    ensures MsgStart(s.log, s.mss, k) < MsgStart(s.log, s.mss, k + 1)
  {
    MsgIsSlice(s.log, s.mss, k);
    FragmentsAreFaithful(s.log[k], s.mss);
  }

  /** Message mode: everything `recvmsg` returns is a whole message that was sent, cut to the user's
      buffer, and no message is returned twice. */
  lemma MessagesAreWhole(ws: seq<World>, steps: seq<Step>, mss: nat, size: nat, t: nat)
    requires IsRun(ws, steps, mss, size, false) && mss > 0 && size >= 3 && t < |ws|
    ensures var w := ws[t];
            && w.snd.mss > 0
            && (forall i :: 0 <= i < |w.rcv.got| ==> DeliversSome(w, i))
            && (forall i, j, k :: 0 <= i < j < |w.rcv.got| && DeliversMessage(w, i, k) ==> !DeliversMessage(w, j, k))
  {
    RunKeepsInv(ws, steps, mss, size, false, t);
    hide IsRun, DeliversMessage;
    var w := ws[t];
    assert w.snd.mss > 0;
    hide Inv;
    forall i | 0 <= i < |w.rcv.got| ensures DeliversSome(w, i) {
      var k := DeliveryHasMessage(w, i);
    }
    forall i, j, k | 0 <= i < j < |w.rcv.got| && DeliversMessage(w, i, k)
      ensures !DeliversMessage(w, j, k)
    {
      DeliveredOnce(w, i, j, k);
    }
  }

  lemma DeliveredOnce(w: World, i: nat, j: nat, k: nat)
    requires Inv(w) && !w.rcv.isStream && i < j < |w.rcv.got| && DeliversMessage(w, i, k)
    ensures !DeliversMessage(w, j, k)
  {
    hide Stream, MsgStart, Bytes, Truncated, StreamInv, ReceiverInv, AgreeInv, MsgInv, GoodLog;
    MessageNotEmpty(w.snd, k);
    assert Covers(w.rcv.got[i], w.rcv.got[i].first);
  }

  /** An in-order message is returned only after every message sent before it. */
  lemma InOrderMessagesComeInOrder(w: World, i: nat, k: nat, j: nat) returns (i': nat)
    requires Inv(w) && !w.rcv.isStream && i < |w.rcv.got| && DeliversMessage(w, i, k)
    requires w.snd.log[k].inOrder && j < k
    ensures i' < i && DeliversMessage(w, i', j)
  {
    var s, got := w.snd, w.rcv.got;
    var d := got[i];
    MessageNotEmpty(s, k);
    StreamFlags(s.log, s.mss, k, d.last);
    MessageNotEmpty(s, j);
    MsgStartMonotone(s.log, s.mss, j + 1, k);
    var n := MsgStart(s.log, s.mss, j);
    assert Delivered(got[..i], n);
    i' :| 0 <= i' < i && Covers(got[..i][i'], n);
    DeliveryIsMessage(s, got[i'], j, n);
    var j' := DeliveryHasMessage(w, i');
    SameStart(s, j, j');
  }

  lemma SameStart(s: Snd, j: nat, k: nat)
    requires s.mss > 0 && GoodLog(s.log) && j < |s.log| && k < |s.log|
    requires MsgStart(s.log, s.mss, j) == MsgStart(s.log, s.mss, k)
    ensures j == k
  {
    MessageNotEmpty(s, j);
    MessageNotEmpty(s, k);
    if j < k {
      MsgStartMonotone(s.log, s.mss, j + 1, k);
    } else if k < j {
      MsgStartMonotone(s.log, s.mss, k + 1, j);
    }
  }

  /** When all messages are sent in order, as this repository sends them, the messages returned are
      exactly the first messages sent, in their order. */
  lemma {:induction false} InOrderDelivery(ws: seq<World>, steps: seq<Step>, mss: nat, size: nat, t: nat, i: nat)
    requires IsRun(ws, steps, mss, size, false) && mss > 0 && size >= 3 && t < |ws|
    requires forall k :: 0 <= k < |ws[t].snd.log| ==> ws[t].snd.log[k].inOrder
    requires i < |ws[t].rcv.got|
    ensures ws[t].snd.mss > 0 && DeliversMessage(ws[t], i, i)
    decreases i
  {
    RunKeepsInv(ws, steps, mss, size, false, t);
    MessagesAreWhole(ws, steps, mss, size, t);
    var w := ws[t];
    var k := DeliveryHasMessage(w, i);
    if i < k {
      var i' := InOrderMessagesComeInOrder(w, i, k, i);
      InOrderDelivery(ws, steps, mss, size, t, i');
      SameDelivery(w, i', i, i');
    } else if k < i {
      InOrderDelivery(ws, steps, mss, size, t, k);
    }
  }

  lemma SameDelivery(w: World, i: nat, j: nat, k: nat)
    requires Inv(w) && i < |w.rcv.got| && DeliversMessage(w, i, j) && DeliversMessage(w, i, k)
    ensures j == k
  {
    SameStart(w.snd, j, k);
  }

  // ----- the header word

  /** Message numbers fit into the 29 bits reserved for them, 0 is not used, and they count up from 1 and around. */
  predicate NumbersFit(s: Snd) {
    && 1 <= s.nextNo < MAX_MSG_NO
    && (forall k :: 0 <= k < |s.log| ==> 1 <= s.log[k].no < MAX_MSG_NO)
    && (forall k :: 0 <= k < |s.log| ==> CountsOn(s, k))
    && NumberAt(s, 0) == 1
  }

  /** The number of message `k`, or the one that comes next. */
  function NumberAt(s: Snd, k: nat): bv32 {
    if k < |s.log| then s.log[k].no else s.nextNo
  }

  predicate CountsOn(s: Snd, k: nat) {
    NumberAt(s, k + 1) == if NumberAt(s, k) == 0x1FFF_FFFE then 1 else NumberAt(s, k) + 1
  }

  lemma SendCountsOn(s: Snd, s': Snd, k: nat)
    requires |s'.log| == |s.log| + 1 && s'.log[..|s.log|] == s.log && s'.log[|s.log|].no == s.nextNo
    requires s'.nextNo == HeaderWord.NextMsgNo(s.nextNo) && k <= |s.log| && (k < |s.log| ==> CountsOn(s, k))
    ensures CountsOn(s', k)
  {
    assert forall i: nat :: i <= |s.log| ==> NumberAt(s', i) == NumberAt(s, i);
  }

  lemma SendKeepsNumbers(s: Snd, data: seq<Byte>, inOrder: bool)
    requires NumbersFit(s) && s.mss > 0
    ensures NumbersFit(UserSend(s, data, inOrder))
  {
    hide Fragments, CountsOn;
    var s' := UserSend(s, data, inOrder);
    forall k: nat | k < |s'.log| ensures CountsOn(s', k) {
      SendCountsOn(s, s', k);
    }
  }

  /** Only the user's sending touches the log. */
  lemma StepKeepsLog(w: World, step: Step, w': World)
    requires Inv(w) && Next(w, step, w') && !step.UserSends?
    ensures w'.snd.log == w.snd.log && w'.snd.nextNo == w.snd.nextNo
    ensures w'.snd.mss == w.snd.mss && w'.snd.frags == w.snd.frags
  {
    hide SenderInv, ReceiverInv, AgreeInv, StreamInv, MessageInv, RecvMsg, SkipTaken, Recv, OnData, SendAck, OnAck2;
    if step.SenderGets? && step.toSender.Nak? {
      assert MsgInv(step.toSender, w.snd, w.rcv);
      NakKeepsInv(w.snd, w.rcv, step.toSender.items);
    }
  }

  lemma StepKeepsNumbers(w: World, step: Step, w': World)
    requires Inv(w) && Next(w, step, w') && NumbersFit(w.snd)
    ensures NumbersFit(w'.snd)
  {
    hide NumbersFit, UserSend, Inv;
    if step.UserSends? {
      SendKeepsNumbers(w.snd, step.data, step.inOrder);
    } else {
      StepKeepsLog(w, step, w');
      SameLogFits(w.snd, w'.snd);
    }
  }

  lemma SameLogFits(s: Snd, s': Snd)
    requires NumbersFit(s) && s'.log == s.log && s'.nextNo == s.nextNo
    ensures NumbersFit(s')
  {
    hide CountsOn;
    forall k: nat | k < |s.log| ensures CountsOn(s', k) {
      SameCount(s, s', k);
    }
  }

  lemma SameCount(s: Snd, s': Snd, k: nat)
    requires CountsOn(s, k) && s'.log == s.log && s'.nextNo == s.nextNo
    ensures CountsOn(s', k)
  {
  }

  lemma {:induction false} RunKeepsNumbers(ws: seq<World>, steps: seq<Step>, mss: nat, size: nat, isStream: bool,
                                           i: nat)
    requires IsRun(ws, steps, mss, size, isStream) && mss > 0 && size >= 3 && i < |ws|
    ensures NumbersFit(ws[i].snd)
  {
    if i > 0 {
      hide Inv, Next, IsRun;
      RunKeepsNumbers(ws, steps, mss, size, isStream, i - 1);
      RunKeepsInv(ws, steps, mss, size, isStream, i - 1);
      StepAt(ws, steps, mss, size, isStream, i - 1);
      StepKeepsNumbers(ws[i - 1], steps[i - 1], ws[i]);
    }
  }

  /** The header of every packet ever sent survives being written into a word and read back. */
  lemma HeadersSurvive(ws: seq<World>, steps: seq<Step>, mss: nat, size: nat, isStream: bool, t: nat, n: int, f: Frag)
    requires IsRun(ws, steps, mss, size, isStream) && mss > 0 && size >= 3 && t < |ws|
    requires Data(n, f) in ws[t].net
    ensures HeaderWord.Decode(HeaderWord.Encode(f.hdr)) == f.hdr
  {
    hide IsRun, Stream, MsgStart, StreamInv, MessageInv, ReceiverInv, AgreeInv, HeaderWord.Encode, HeaderWord.Decode;
    RunKeepsInv(ws, steps, mss, size, isStream, t);
    RunKeepsNumbers(ws, steps, mss, size, isStream, t);
    var s := ws[t].snd;
    assert MsgInv(Data(n, f), s, ws[t].rcv);
    var k := MsgOf(s.log, s.mss, n);
    StreamFlags(s.log, s.mss, k, n);
    HeaderWord.DecodeEncode(f.hdr);
  }

  // ----- what the two ends know about each other

  /** The branches commented "attack or bug" are never taken, no send block outside the buffer is
      read or released, and no block is released before the peer has stored its packet. */
  lemma NoBadBranch(ws: seq<World>, steps: seq<Step>, mss: nat, size: nat, isStream: bool, t: nat)
    requires IsRun(ws, steps, mss, size, isStream) && mss > 0 && size >= 3 && t < |ws|
    ensures var (s, r) := (ws[t].snd, ws[t].rcv);
            && !s.broken && !s.fault
            && 0 <= s.dataAck <= s.lastAck <= s.curr + 1 <= |s.frags|
            && (forall n :: 0 <= n < s.lastAck ==> n in r.stored && r.stored[n] == s.frags[n])
  {
    RunKeepsInv(ws, steps, mss, size, isStream, t);
  }

  /** The sender's loss list stays between the last full acknowledgement and the last number sent,
      a span always smaller than the window the peer announced, so half of the list's slots
      suffice even with light acknowledgements running ahead. */
  lemma LossSpanFitsTheList(ws: seq<World>, steps: seq<Step>, mss: nat, size: nat, isStream: bool, t: nat)
    requires IsRun(ws, steps, mss, size, isStream) && mss > 0 && size >= 3 && t < |ws|
    ensures var s := ws[t].snd;
            && (forall x :: x in s.loss ==> s.dataAck <= x <= s.curr)
            && s.curr - s.dataAck < size
  {
    RunKeepsInv(ws, steps, mss, size, isStream, t);
  }

  /** The receiver's loss list is the set of missing numbers, so the number it acknowledges is the
      smallest one missing. */
  lemma ReceiverKnowsItsGaps(ws: seq<World>, steps: seq<Step>, mss: nat, size: nat, isStream: bool, t: nat)
    requires IsRun(ws, steps, mss, size, isStream) && mss > 0 && size >= 3 && t < |ws|
    ensures var r := ws[t].rcv;
            && (forall n :: n in r.loss <==> r.lastAck <= n <= r.curr && n !in r.stored)
            && AckValue(r) !in r.stored
            && (forall n :: 0 <= n < AckValue(r) ==> n in r.stored)
  {
    RunKeepsInv(ws, steps, mss, size, isStream, t);
    AckIsFirstMissing(ws[t].rcv);
  }

  /** Flow control: the sender's limit is at most two packets beyond the end of the receive buffer,
      and a first transmission stays below the limit. */
  lemma FlowControl(ws: seq<World>, steps: seq<Step>, mss: nat, size: nat, isStream: bool, t: nat)
    requires IsRun(ws, steps, mss, size, isStream) && mss > 0 && size >= 3 && t < |steps|
    ensures ws[t].snd.lastAck + ws[t].snd.window <= RightEdge(ws[t].rcv) + 2
    ensures RightEdge(ws[t].rcv) <= RightEdge(ws[t + 1].rcv)
    ensures ws[t].snd.curr < ws[t + 1].snd.curr ==> ws[t + 1].snd.curr < ws[t].snd.lastAck + ws[t].snd.window
  {
    RunKeepsInv(ws, steps, mss, size, isStream, t);
    StepMovesEdges(ws[t], steps[t], ws[t + 1]);
  }

  lemma {:induction false} NakLeavesCurr(s: Snd, items: seq<LossItem>)
    ensures OnNak(s, items).curr == s.curr
    decreases |items|
  {
    if items != [] {
      NakLeavesCurr(OnLossItem(s, items[0]), items[1..]);
    }
  }

  lemma ReceiverOnlyMovesForward(w: World, step: Step, w': World)
    requires Inv(w) && Next(w, step, w')
    ensures w'.rcv.size == w.rcv.size && w.rcv.start <= w'.rcv.start
  {
    hide Inv, OnNak, OnLossItem, OnAck, PackNew, PackPicked, UserSend, ReadFrom, Readable;
    match step
    case UserReceives(len) => ReadFromAdvances(w.rcv, len);
    case UserAsksForMessage => SkipTakenMeaning(w.rcv);
    case UserReceivesMessage(len) => SkipTakenMeaning(w.rcv);
    case _ =>
  }

  lemma ReadFromAdvances(r: Rcv, len: nat)
    ensures r.start <= Recv(r, len).start
  {
  }

  lemma FirstTransmissionInWindow(w: World, step: Step, w': World)
    requires Next(w, step, w')
    ensures w.snd.curr < w'.snd.curr ==> w'.snd.curr < w.snd.lastAck + w.snd.window
  {
    hide OnNak, RecvMsg, SkipTaken, Recv, OnData, SendAck, OnAck2;
    if step.SenderGets? && step.toSender.Nak? {
      NakLeavesCurr(w.snd, step.toSender.items);
    }
  }

  lemma StepMovesEdges(w: World, step: Step, w': World)
    requires Inv(w) && Next(w, step, w')
    ensures RightEdge(w.rcv) <= RightEdge(w'.rcv)
    ensures w.snd.curr < w'.snd.curr ==> w'.snd.curr < w.snd.lastAck + w.snd.window
  {
    hide Next, Inv;
    ReceiverOnlyMovesForward(w, step, w');
    FirstTransmissionInWindow(w, step, w');
  }
}
