/** The sending half of a connection as the program keeps it (udt4/src/core.cpp): wrapped sequence
    numbers, the loss list and the send buffer.  Every method is proved to take the step that
    `SenderSpec` describes on unbounded numbers counted from the initial sequence number. */
module Senders {
  import opened SeqNo
  import opened Packets
  import opened HeaderWord
  import opened NakCoding
  import opened LossListFacts
  import opened SndLossLists
  import opened SndBuffers
  import Spec = SenderSpec
  import opened SenderSpec
  import Protocol
  import Effects

  // ----- numbers counted from the initial sequence number

  /** The loss list holds absolute numbers, the specification relative ones. */
  ghost predicate Shifted(c: set<int>, l: set<int>, isn: int) {
    && (forall x :: x in c <==> x - isn in l)
    && (forall n :: n in l <==> n + isn in c)
  }

  function Absolute(item: LossItem, isn: int): LossItem {
    match item
    case Single(n) => Single(isn + n)
    case Pair(a, b) => Pair(isn + a, isn + b)
  }

  function AllAbsolute(items: seq<LossItem>, isn: int): seq<LossItem> {
    seq(|items|, i requires 0 <= i < |items| => Absolute(items[i], isn))
  }

  lemma NothingShifted(isn: int)
    ensures Shifted({}, {}, isn)
  {
  }

  lemma SmallWire(x: int)
    requires 0 <= x <= MAX_SEQ_NO
    ensures Wire(x) == x && CurrWire(x - 1) == x - 1
  {
  }

  lemma ShiftedMin(c: set<int>, l: set<int>, isn: int)
    requires Shifted(c, l, isn)
    ensures c == {} <==> l == {}
    ensures l != {} ==> c != {} && Min(c) == isn + Min(l) && Shifted(c - {Min(c)}, l - {Min(l)}, isn)
  {
    hide Shifted, IsMin;
    ShiftedEmpty(c, l, isn);
    if l != {} {
      ShiftedLeast(c, l, isn, Min(c), Min(l));
      ShiftedWithout(c, l, isn, Min(l));
    }
  }

  lemma ShiftedEmpty(c: set<int>, l: set<int>, isn: int)
    requires Shifted(c, l, isn)
    ensures c == {} <==> l == {}
  {
    if l == {} {
      assert forall x :: x !in c;
    } else {
      Inhabited(l);
    }
  }

  lemma ShiftedLeast(c: set<int>, l: set<int>, isn: int, x: int, n: int)
    requires Shifted(c, l, isn) && IsMin(c, x) && IsMin(l, n)
    ensures x == isn + n
  {
    assert n + isn in c;
    assert x - isn in l;
  }

  lemma ShiftedWithout(c: set<int>, l: set<int>, isn: int, n: int)
    requires Shifted(c, l, isn)
    ensures Shifted(c - {isn + n}, l - {n}, isn)
  {
  }

  lemma ShiftedUnion(c: set<int>, l: set<int>, isn: int, a: int, b: int)
    requires Shifted(c, l, isn)
    ensures Shifted(c + Interval(isn + a, isn + b), l + Interval(a, b), isn)
  {
  }

  lemma ShiftedCut(c: set<int>, l: set<int>, isn: int, a: int)
    requires Shifted(c, l, isn)
    ensures Shifted((set x | x in c && x > isn + a - 1), (set x | x in l && x >= a), isn)
  {
  }

  /** What every method relies on; a part of the invariant of the protocol. */
  ghost predicate Ordered(s: Snd, size: int) {
    && 0 <= s.dataAck <= s.lastAck <= s.curr + 1 <= |s.frags|
    && s.curr < s.dataAck + size
    && (forall x :: x in s.loss ==> s.dataAck <= x <= s.curr)
    && (s.picked.Some? ==> 0 <= s.picked.value <= s.curr)
    && !s.broken && !s.fault
  }

  lemma InvIsOrdered(s: Snd, size: nat)
    requires Protocol.SenderInv(s, size)
    ensures Ordered(s, size)
  {
  }

  lemma ShiftedNear(c: set<int>, s: Snd, isn: int, a: int, size: int)
    requires Shifted(c, s.loss, isn) && s.dataAck < a <= s.curr + 1 && s.curr < s.dataAck + size && size < SEQ_NO_TH
    requires forall x :: x in s.loss ==> s.dataAck <= x <= s.curr
    ensures forall x :: x in c ==> Near(x, isn + a - 1)
  {
  }

  lemma ShiftedRoom(c: set<int>, s: Snd, isn: int, a: int, b: int, size: int)
    requires Shifted(c, s.loss, isn) && Ordered(s, size) && s.dataAck <= a <= b <= s.curr
    ensures RoomFor(c, isn + a, isn + b, 2 * size)
  {
  }

  lemma SameWire(x: int, y: int)
    requires Near(x, y)
    ensures Wire(x) == Wire(y) <==> x == y
  {
    WireInjective(x, y);
  }

  lemma NoElements(c: set<int>)
    ensures |c| == 0 <==> c == {}
  {
  }

  // ----- reading a loss report

  ghost function LowOf(item: LossItem): int {
    match item
    case Single(n) => n
    case Pair(a, _) => a
  }

  ghost function HighOf(item: LossItem): int {
    match item
    case Single(n) => n
    case Pair(_, b) => b
  }

  lemma WordsOfNext(items: seq<LossItem>, isn: int, words: seq<int>)
    requires words == NakCoding.Encode(AllAbsolute(items, isn)) && words != []
    ensures items != []
    ensures var w := WordsOf(Absolute(items[0], isn));
            0 < |w| && w <= words && words[|w|..] == NakCoding.Encode(AllAbsolute(items[1..], isn))
  {
    assert AllAbsolute(items, isn) != [];
    assert AllAbsolute(items, isn)[1..] == AllAbsolute(items[1..], isn);
  }

  lemma EntriesHaveWords(items: seq<LossItem>, isn: int)
    ensures items != [] ==> NakCoding.Encode(AllAbsolute(items, isn)) != []
  {
    if items != [] {
      assert |WordsOf(AllAbsolute(items, isn)[0])| > 0;
    }
  }

  lemma NearItemSame(s: Snd, s': Snd, item: LossItem)
    requires NearItem(s, item) && s' == s.(loss := s'.loss)
    ensures NearItem(s', item)
  {
  }

  /** An entry that is within what was sent keeps the numbers in order. */
  lemma LossItemKeepsOrder(s: Snd, item: LossItem, size: int)
    requires Ordered(s, size)
    ensures var s' := OnLossItem(s, item);
            if s'.broken then s' == s.(broken := true) else Ordered(s', size) && s' == s.(loss := s'.loss)
  {
  }

  predicate NearSent(s: Snd, n: int) {
    0 <= n && Near(n, s.dataAck) && Near(n, s.lastAck) && Near(n, s.curr) && Near(n, s.curr + 1)
  }

  predicate NearItem(s: Snd, item: LossItem) {
    match item
    case Single(n) => NearSent(s, n)
    case Pair(a, b) => NearSent(s, a) && NearSent(s, b) && Near(a, b)
  }

  class Sender {
    const isn: int
    const size: int            // the window the peer announced
    const lossList: SndLossList
    const buffer: SndBuffer
    var lastAck: int
    var lastDataAck: int
    var lastAck2: int
    var currSeqNo: int
    var flowWindow: int
    var broken: bool

    ghost var s: Snd

    ghost function Lists(): set<object> {
      {lossList, lossList.data1, lossList.data2, lossList.next}
    }

    ghost function Areas(): (os: set<object>)
      reads buffer
      ensures buffer in os
    {
      {buffer} + Blocks(buffer.blocks) + Buffers(buffer.blocks)
    }

    ghost predicate Numbers()
      reads this
    {
      && lastAck == Wire(isn + s.lastAck)
      && lastDataAck == Wire(isn + s.dataAck)
      && currSeqNo == CurrWire(isn + s.curr)
      && lastAck2 == s.lastAck2 && flowWindow == s.window && broken == s.broken
    }

    ghost predicate Buffered()
      reads this, buffer
    {
      && s.mss == buffer.mss && s.nextNo == buffer.nextMsgNo
      && 0 <= s.dataAck <= |s.frags| && buffer.frags == s.frags[s.dataAck..]
      && buffer.curr == s.curr + 1 - s.dataAck
    }

    ghost function Repr(): set<object>
      reads buffer
    {
      {this} + Lists() + Areas()
    }

    ghost predicate Valid()
      reads this, Lists(), buffer, Areas()
      ensures Valid() ==> s.mss == buffer.mss > 0 && buffer.count == |s.frags| - s.dataAck
    {
      && 0 <= isn <= MAX_SEQ_NO && 0 < lossList.size == 2 * size < SEQ_NO_TH
      && Lists() !! Areas() && this !in Lists() && this !in Areas()
      && lossList.Valid() && buffer.Valid()
      && Shifted(lossList.Contents(), s.loss, isn)
      && Numbers() && Buffered()
    }

    /** The state after the handshake. */
    constructor (isn: int, mss: nat, window: int)
      requires 0 <= isn <= MAX_SEQ_NO && mss > 0 && 0 < 2 * window < SEQ_NO_TH
      ensures Valid() && fresh(Lists()) && fresh(Areas())
      ensures this.isn == isn && size == window && s == InitSnd(mss, window, isn)
    {
      hide SndLossList.Valid, SndBuffer.Valid, Shifted, SndLossList.Contents, Wire;
      this.isn, size := isn, window;
      lossList := new SndLossList(window * 2);
      buffer := new SndBuffer(32, mss);
      lastAck, lastDataAck, lastAck2 := isn, isn, isn;
      currSeqNo := isn - 1;
      flowWindow := window;
      broken := false;
      s := InitSnd(mss, window, isn);
      new;
      NothingShifted(isn);
      SmallWire(isn);
    }

    /** `addBuffer`, as `send` and `sendmsg` call it. */
    method Send(data: seq<Byte>, inOrder: bool)
      requires Valid() && Ordered(s, size)
      modifies this`s, Areas()
      ensures Valid() && fresh(Areas() - old(Areas()))
      ensures s == UserSend(old(s), data, inOrder)
    {
      hide SndLossList.Valid, SndBuffer.Valid, Fragments, NextMsgNo, Shifted;
      buffer.AddBuffer(data, inOrder);
      ghost var fs := Fragments(Message(data, s.nextNo, inOrder), s.mss);
      assert (s.frags + fs)[s.dataAck..] == s.frags[s.dataAck..] + fs;
      s := UserSend(s, data, inOrder);
    }

    /** `packData`, first half. */
    method TakeLost() returns (seqno: int)
      requires Valid() && Ordered(s, size) && s.picked.None?
      modifies this`s, Lists()
      ensures Valid() && Areas() == old(Areas())
      ensures if old(s).loss == {} then seqno == -1 && s == old(s)
              else s == Pick(old(s)) && seqno == Wire(isn + s.picked.value)
    {
      hide SndLossList.Valid, SndBuffer.Valid, SndLossList.Contents, Min, Shifted, Wire, CurrWire;
      ghost var c, l := lossList.Contents(), s.loss;
      ShiftedMin(c, l, isn);
      seqno := lossList.GetLostSeq();
      if seqno >= 0 {
        assert l != {} && seqno == Wire(isn + Min(l));
        assert lossList.Contents() == c - {Min(c)};
        s := Pick(s);
      }
    }

    /** `packData`, second half: send a lost packet again unless it has been acknowledged meanwhile. */
    method PackLost(seqno: int) returns (payload: nat, f: Frag)
      requires Valid() && Ordered(s, size) && s.picked.Some?
      requires seqno == Wire(isn + s.picked.value) && Near(s.dataAck, s.picked.value)
      modifies this`s
      ensures Valid() && Areas() == old(Areas())
      ensures var n := old(s).picked.value;
              (s, if payload == 0 then [] else [Data(n, f)]) == PackPicked(old(s))
    {
      hide SndLossList.Valid, SndBuffer.Valid, Shifted, Wire, CurrWire, Off;
      ghost var n := s.picked.value;
      OffIsDistance(isn + s.dataAck, isn + n);
      var offset := Off(lastDataAck, seqno);
      s := s.(picked := None);
      if offset < 0 {
        return 0, Frag([], Header(false, false, false, 0));
      }
      payload, f := buffer.ReadDataAt(offset);
    }

    /** `packData` when nothing is lost: a first transmission, if both windows allow one. */
    method PackNew(congestionWindow: int) returns (payload: nat, seqno: int, f: Frag)
      requires Valid() && Ordered(s, size)
      modifies this`s, this`currSeqNo, buffer`currBlock, buffer`curr
      ensures Valid() && Areas() == old(Areas())
      ensures (s, if payload == 0 then [] else [Data(s.curr, f)]) == Spec.PackNew(old(s), congestionWindow)
      ensures payload != 0 <==> Effects.MaySendNext(old(s), congestionWindow)
      ensures if payload == 0 then s == old(s)
              else var n := old(s).curr + 1; s == old(s).(curr := n) && seqno == Wire(isn + n) && f == s.frags[n]
    {
      hide SndLossList.Valid, SndBuffer.Valid, Shifted, Wire, CurrWire, Len, Inc;
      IncIsSuccessor(isn + s.curr);
      CurrWireIsWire(isn + s.curr + 1);
      LenIsCount(isn + s.lastAck, isn + s.curr + 1);
      var cwnd := if flowWindow < congestionWindow then flowWindow else congestionWindow;
      if cwnd >= Len(lastAck, Inc(currSeqNo)) {
        payload, f := buffer.ReadData();
        if payload != 0 {
          currSeqNo := Inc(currSeqNo);
          seqno := currSeqNo;
          assert f == s.frags[s.curr + 1];
          s := s.(curr := s.curr + 1);
          return;
        }
      }
      return 0, -1, Frag([], Header(false, false, false, 0));
    }

    /** `packData`: a lost packet if there is one, otherwise a new one. */
    method PackData(congestionWindow: int) returns (payload: nat, seqno: int, f: Frag)
      requires Valid() && Ordered(s, size) && s.picked.None?
      modifies this`s, this`currSeqNo, Lists(), buffer`currBlock, buffer`curr
      ensures Valid() && Areas() == old(Areas())
      ensures (s, if payload == 0 then [] else [Data(if old(s).loss == {} then s.curr else Min(old(s).loss), f)])
              == (if old(s).loss == {} then Spec.PackNew(old(s), congestionWindow) else PackPicked(Pick(old(s))))
      ensures payload != 0 ==> seqno == Wire(isn + if old(s).loss == {} then s.curr else Min(old(s).loss))
    {
      hide SndLossList.Valid, SndBuffer.Valid, Numbers, Buffered, Shifted, Wire, Min;
      seqno := TakeLost();
      if seqno >= 0 {
        payload, f := PackLost(seqno);
      } else {
        payload, seqno, f := PackNew(congestionWindow);
      }
    }

    /** A light acknowledgement. */
    method OnLightAck(ack: int, ghost a: int)
      requires Valid() && ack == Wire(isn + a) && Near(a, s.lastAck)
      modifies this`s, this`lastAck, this`flowWindow
      ensures Valid() && Areas() == old(Areas()) && s == Spec.OnLightAck(old(s), a)
    {
      hide SndLossList.Valid, SndBuffer.Valid, Shifted, Wire, CurrWire, Off, Cmp;
      CmpIsOrder(isn + a, isn + s.lastAck);
      OffIsDistance(isn + s.lastAck, isn + a);
      if Cmp(ack, lastAck) >= 0 {
        flowWindow := flowWindow - Off(lastAck, ack);
        lastAck := ack;
      }
      s := Spec.OnLightAck(s, a);
    }

    /** A full acknowledgement; `ack2` is the acknowledgement number to answer, if any, and `acked`
        tells whether send blocks have been released. */
    method OnAck(ackNo: int, ack: int, window: int, due: bool, ghost a: int) returns (ack2: Option<int>, acked: bool)
      requires Valid() && Ordered(s, size) && ack == Wire(isn + a) && NearSent(s, a)
      modifies this, Lists(), buffer
      ensures Valid() && Areas() == old(Areas())
      ensures (s, if ack2.Some? then [Ack2(ack2.value)] else []) == Spec.OnAck(old(s), ackNo, a, window, due)
      ensures acked == (s.dataAck > old(s).dataAck)
      ensures ack2 == if Effects.MustAnswer(old(s), ackNo, due) then Some(ackNo) else None
      ensures if a > old(s).curr + 1 then s.broken else Effects.TakesOver(old(s), a, window, s)
    {
      hide SndLossList.Valid, SndBuffer.Valid, Shifted, Wire, CurrWire, Spec.AcceptAck, Effects.TakesOver, Numbers,
        Buffered;
      Effects.AcceptedIsTakenOver(s, ackNo, a, window, due);
      ack2 := Answer(ackNo, due);
      acked := AcceptAck(ack, window, a);
    }

    method Answer(ackNo: int, due: bool) returns (ack2: Option<int>)
      requires Valid()
      modifies this`s, this`lastAck2
      ensures Valid() && Areas() == old(Areas())
      ensures ack2 == if Effects.MustAnswer(old(s), ackNo, due) then Some(ackNo) else None
      ensures s == if ack2.Some? then old(s).(lastAck2 := ackNo) else old(s)
    {
      hide SndLossList.Valid, SndBuffer.Valid, Shifted, Wire, CurrWire;
      ack2 := None;
      if due || ackNo == lastAck2 {
        ack2 := Some(ackNo);
        lastAck2 := ackNo;
        s := s.(lastAck2 := ackNo);
      }
    }

    method AcceptAck(ack: int, window: int, ghost a: int) returns (acked: bool)
      requires Valid() && Ordered(s, size) && ack == Wire(isn + a) && NearSent(s, a)
      modifies this, Lists(), buffer
      ensures Valid() && Areas() == old(Areas())
      ensures s == Spec.AcceptAck(old(s), a, window) && acked == (s.dataAck > old(s).dataAck)
    {
      hide SndLossList.Valid, SndBuffer.Valid, Shifted, Wire, CurrWire, Off, Cmp, Inc, Dec;
      IncIsSuccessor(isn + s.curr);
      CmpIsOrder(isn + a, isn + s.curr + 1);
      CmpIsOrder(isn + a, isn + s.lastAck);
      OffIsDistance(isn + s.dataAck, isn + a);
      if Cmp(ack, Inc(currSeqNo)) > 0 {
        broken := true;
        s := s.(broken := true);
        return false;
      }
      if Cmp(ack, lastAck) >= 0 {
        flowWindow := window;
        lastAck := ack;
        s := s.(window := window, lastAck := a);
      }
      var offset := Off(lastDataAck, ack);
      if offset <= 0 {
        return false;
      }
      Acknowledge(ack, offset, a);
      return true;
    }

    method Acknowledge(ack: int, offset: int, ghost a: int)
      requires Valid() && ack == Wire(isn + a) && offset == a - s.dataAck && s.dataAck < a <= s.curr + 1 <= |s.frags|
      requires forall x :: x in s.loss ==> s.dataAck <= x <= s.curr
      requires s.curr < s.dataAck + size
      modifies this, Lists(), buffer
      ensures Valid() && Areas() == old(Areas())
      ensures s == old(s).(dataAck := a, loss := set x | x in old(s).loss && x >= a)
    {
      hide SndLossList.Valid, SndBuffer.Valid, Wire, CurrWire, Dec, Shifted;
      ShiftedNear(lossList.Contents(), s, isn, a, size);
      buffer.AckData(offset);
      lastDataAck := ack;
      DecIsPredecessor(isn + a);
      ShiftedCut(lossList.Contents(), s.loss, isn, a);
      lossList.Remove(Dec(lastDataAck), isn + a - 1);
      assert s.frags[s.dataAck..][offset..] == s.frags[a..];
      s := s.(dataAck := a, loss := set x | x in s.loss && x >= a);
    }

    /** A loss report: decode it word by word and insert what is not yet acknowledged. */
    method OnNak(words: seq<int>, ghost items: seq<LossItem>)
      requires Valid() && Ordered(s, size) && words == NakCoding.Encode(AllAbsolute(items, isn))
      requires forall i :: 0 <= i < |items| ==> NearItem(s, items[i])
      modifies this`s, this`broken, Lists()
      ensures Valid() && Areas() == old(Areas()) && s == Spec.OnNak(old(s), items)
    {
      hide SndLossList.Valid, SndBuffer.Valid, Shifted, Wire, CurrWire, NakCoding.Encode, WordsOf, Ordered,
        NearItem, OnLossItem;
      var i, secure := 0, true;
      ghost var k := 0;
      while i < |words| && secure
        invariant Valid() && Areas() == old(Areas()) && Ordered(s, size) && s == old(s).(loss := s.loss)
        invariant 0 <= i <= |words| && 0 <= k <= |items|
        invariant secure ==> words[i..] == NakCoding.Encode(AllAbsolute(items[k..], isn))
        invariant Spec.OnNak(old(s), items) == if secure then Spec.OnNak(s, items[k..]) else s.(broken := true)
      {
        WordsOfNext(items[k..], isn, words[i..]);
        NearItemSame(old(s), s, items[k]);
        LossItemKeepsOrder(s, items[k], size);
        assert items[k..][0] == items[k] && items[k..][1..] == items[k + 1..];
        var used;
        used, secure := OnWords(words, i, items[k]);
        i := i + used;
        k := k + 1;
      }
      if secure {
        EntriesHaveWords(items[k..], isn);
      } else {
        broken := true;
        s := s.(broken := true);
      }
    }

    /** One entry of a loss report, which starts at word `i`. */
    method OnWords(words: seq<int>, i: nat, ghost item: LossItem) returns (used: nat, secure: bool)
      requires Valid() && Ordered(s, size) && NearItem(s, item)
      requires i < |words| && WordsOf(Absolute(item, isn)) <= words[i..]
      modifies this`s, Lists()
      ensures Valid() && Areas() == old(Areas()) && used == |WordsOf(Absolute(item, isn))|
      ensures secure ==> s == OnLossItem(old(s), item) && !s.broken
      ensures !secure ==> s == old(s) && OnLossItem(s, item) == s.(broken := true)
    {
      hide SndLossList.Valid, SndBuffer.Valid, Shifted, Wire, CurrWire, Cmp;
      secure := true;
      if Flagged(words[i]) {
        used := 2;
        ghost var a, b := LowOf(item), HighOf(item);
        assert words[i] == words[i..][0] && words[i + 1] == words[i..][1];
        var first, last := ClearFlag(words[i]), words[i + 1];
        CmpIsOrder(isn + a, isn + b);
        CmpIsOrder(isn + a, isn + s.lastAck);
        CmpIsOrder(isn + b, isn + s.lastAck);
        CurrIsOrder(isn + s.curr, isn + b);
        if Cmp(first, last) > 0 || Cmp(last, currSeqNo) > 0 {
          secure := false;
        } else if Cmp(first, lastAck) >= 0 {
          InsertLoss(first, last, a, b);
        } else if Cmp(last, lastAck) >= 0 {
          InsertLoss(lastAck, last, s.lastAck, b);
        }
      } else {
        used := 1;
        ghost var n := HighOf(item);
        assert words[i] == words[i..][0];
        CmpIsOrder(isn + n, isn + s.lastAck);
        CurrIsOrder(isn + s.curr, isn + n);
        if Cmp(words[i], lastAck) >= 0 {
          if Cmp(words[i], currSeqNo) > 0 {
            secure := false;
          } else {
            assert Interval(n, n) == {n};
            InsertLoss(words[i], words[i], n, n);
          }
        }
      }
    }

    method InsertLoss(seqno1: int, seqno2: int, ghost a: int, ghost b: int)
      requires Valid() && Ordered(s, size) && s.dataAck <= a <= b <= s.curr
      requires seqno1 == Wire(isn + a) && seqno2 == Wire(isn + b)
      modifies this`s, Lists()
      ensures Valid() && Areas() == old(Areas()) && s == old(s).(loss := old(s).loss + Interval(a, b))
    {
      hide SndLossList.Valid, SndBuffer.Valid, Shifted, Wire, CurrWire;
      ShiftedRoom(lossList.Contents(), s, isn, a, b, size);
      ShiftedUnion(lossList.Contents(), s.loss, isn, a, b);
      var num := lossList.Insert(seqno1, seqno2, isn + a, isn + b);
      s := s.(loss := s.loss + Interval(a, b));
    }

    /** The expiration timer. */
    method OnExpire()
      requires Valid() && Ordered(s, size)
      modifies this`s, Lists()
      ensures Valid() && Areas() == old(Areas()) && s == Spec.OnExpire(old(s))
      ensures Effects.RetakesAll(old(s), s)
    {
      hide SndLossList.Valid, SndBuffer.Valid, Shifted, Wire, CurrWire, Inc;
      if buffer.GetCurrBufSize() > 0 {
        ShiftedMin(lossList.Contents(), s.loss, isn);
        IncIsSuccessor(isn + s.curr);
        SameWire(isn + s.curr + 1, isn + s.lastAck);
        var n := lossList.GetLossLength();
        NoElements(lossList.Contents());
        if Inc(currSeqNo) != lastAck && n == 0 {
          CurrWireIsWire(isn + s.curr);
          InsertLoss(lastAck, currSeqNo, s.lastAck, s.curr);
          assert {} + Interval(s.lastAck, s.curr) == Interval(s.lastAck, s.curr);
        }
      }
    }
  }
}
