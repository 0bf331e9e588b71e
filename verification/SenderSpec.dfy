/** The data sender of a connection as a function of its state: what `packData`, `processCtrl`
    and `checkTimers` do to the sending variables (udt4/src/core.cpp), on unbounded packet
    numbers counted from the initial sequence number.  The class `Sender` is proved against it. */
module SenderSpec {
  import opened Packets
  import opened HeaderWord

  datatype Option<+T> = None | Some(value: T)

  /** One entry of a loss report: a single number, or a first and a last number. */
  datatype LossItem = Single(n: int) | Pair(a: int, b: int)

  datatype Msg =
    | Data(n: int, frag: Frag)
    | Ack(ackNo: int, ack: int, window: int)
    | LightAck(lightAck: int)
    | Ack2(ack2No: int)
    | Nak(items: seq<LossItem>)

  /** `log` and `frags` are the history of everything accepted from the user; packet `n` is
      `frags[n]`.  `picked` is a lost number taken from the list but not yet packed.
      `fault` records an access to a send block that holds no packet. */
  datatype Snd = Snd(
    mss: nat, log: seq<Message>, frags: seq<Frag>, nextNo: bv32,
    dataAck: int, lastAck: int, lastAck2: int, curr: int, window: int,
    loss: set<int>, picked: Option<int>, broken: bool, fault: bool)

  function Interval(a: int, b: int): (s: set<int>)
    ensures forall x :: x in s <==> a <= x <= b
  {
    set x | a <= x <= b && Within(x, a, b)
  }

  predicate Within(x: int, a: int, b: int) {
    a <= x <= b
  }

  predicate IsMin(s: set<int>, m: int) {
    m in s && forall x :: x in s ==> m <= x
  }

  lemma Inhabited(s: set<int>)
    requires s != {}
    ensures exists x :: x in s
  {
    if forall x :: x !in s {
      assert false;
    }
  }

  lemma {:induction false} MinExists(s: set<int>)
    requires s != {}
    ensures exists m :: IsMin(s, m)
  {
    Inhabited(s);
    var x :| x in s;
    if s == {x} {
      assert IsMin(s, x);
    } else {
      MinExists(s - {x});
      var m :| IsMin(s - {x}, m);
      assert forall y :: y in s ==> y == x || y in s - {x};
      assert IsMin(s, if x < m then x else m);
    }
  }

  ghost function Min(s: set<int>): (m: int)
    requires s != {}
    ensures IsMin(s, m)
  {
    MinExists(s);
    var m :| IsMin(s, m);
    m
  }

  /** The handshake leaves the sender with the window the peer announced.  The number of the last
      acknowledgement answered starts at the initial sequence number, whatever that is. */
  ghost function InitSnd(mss: nat, window: int, lastAck2: int): Snd {
    Snd(mss, [], [], 1, 0, 0, lastAck2, -1, window, {}, None, false, false)
  }

  /** `addBuffer` */
  ghost function UserSend(s: Snd, data: seq<Byte>, inOrder: bool): Snd
    requires s.mss > 0
  {
    var m := Message(data, s.nextNo, inOrder);
    s.(log := s.log + [m], frags := s.frags + Fragments(m, s.mss), nextNo := NextMsgNo(s.nextNo))
  }

  /** `packData`, first half: take the smallest lost number. */
  ghost function Pick(s: Snd): Snd
    requires s.loss != {}
  {
    s.(loss := s.loss - {Min(s.loss)}, picked := Some(Min(s.loss)))
  }

  /** `packData`, second half, under the acknowledgement lock: pack the number unless it has been
      acknowledged since. */
  ghost function PackPicked(s: Snd): (Snd, seq<Msg>)
    requires s.picked.Some?
  {
    var n := s.picked.value;
    var s' := s.(picked := None);
    if n < s.dataAck then (s', [])
    else if n >= |s.frags| || n < 0 then (s'.(fault := true), [])
    else (s', [Data(n, s.frags[n])])
  }

  function CongestionLimit(s: Snd, cwnd: int): int {
    if s.window < cwnd then s.window else cwnd
  }

  /** `packData` without a loss: a first transmission, if both windows allow one and there is data. */
  ghost function PackNew(s: Snd, cwnd: int): (Snd, seq<Msg>) {
    var n := s.curr + 1;
    if CongestionLimit(s, cwnd) < n - s.lastAck + 1 || n == |s.frags| then (s, [])
    else if n > |s.frags| || n < 0 then (s.(fault := true), [])
    else (s.(curr := n), [Data(n, s.frags[n])])
  }

  /** A light acknowledgement moves the window along with the acknowledged number. */
  ghost function OnLightAck(s: Snd, ack: int): Snd {
    if ack < s.lastAck then s
    else s.(window := s.window - (ack - s.lastAck), lastAck := ack)
  }

  /** A full acknowledgement; `due` says that the ACK2 timer has run out. */
  ghost function OnAck(s: Snd, ackNo: int, ack: int, window: int, due: bool): (Snd, seq<Msg>) {
    var answer := due || ackNo == s.lastAck2;
    var out := if answer then [Ack2(ackNo)] else [];
    var s0 := if answer then s.(lastAck2 := ackNo) else s;
    (AcceptAck(s0, ack, window), out)
  }

  ghost function AcceptAck(s: Snd, ack: int, window: int): Snd {
    if ack > s.curr + 1 then s.(broken := true)
    else
      var s1 := if ack >= s.lastAck then s.(window := window, lastAck := ack) else s;
      if ack <= s.dataAck then s1
      else if ack > |s.frags| then s1.(fault := true)
      else s1.(dataAck := ack, loss := set x | x in s1.loss && x >= ack)
  }

  /** A loss report is read entry by entry; an entry beyond what was sent breaks the connection. */
  ghost function OnNak(s: Snd, items: seq<LossItem>): Snd
    decreases |items|
  {
    if items == [] then s
    else
      var s' := OnLossItem(s, items[0]);
      if s'.broken then s' else OnNak(s', items[1..])
  }

  ghost function OnLossItem(s: Snd, item: LossItem): Snd {
    match item
    case Pair(a, b) =>
      if a > b || b > s.curr then s.(broken := true)
      else if a >= s.lastAck then s.(loss := s.loss + Interval(a, b))
      else if b >= s.lastAck then s.(loss := s.loss + Interval(s.lastAck, b))
      else s
    case Single(n) =>
      if n < s.lastAck then s
      else if n > s.curr then s.(broken := true)
      else s.(loss := s.loss + {n})
  }

  /** The expiration timer re-sends everything unacknowledged, unless losses are already known. */
  ghost function OnExpire(s: Snd): Snd {
    if s.dataAck < |s.frags| && s.curr + 1 != s.lastAck && s.loss == {}
    then s.(loss := Interval(s.lastAck, s.curr))
    else s
  }
}
