/** The data receiver of a connection as a function of its state: what `processData`, `sendCtrl`,
    the ACK2 case of `processCtrl`, `recv` and `recvmsg` do to the receiving variables
    (udt4/src/core.cpp, udt4/src/buffer.cpp), on unbounded packet numbers.  The class `Receiver`
    is proved against it. */
module ReceiverSpec {
  import opened Packets
  import opened SenderSpec

  /** A message handed to the user: the packet numbers it came from, the size of the user's buffer
      and the bytes copied into it. */
  datatype Delivery = Delivery(first: int, last: int, len: nat, data: seq<Byte>)

  /** An acknowledgement the receiver remembers until it is itself acknowledged. */
  datatype AckRecord = AckRecord(ackNo: int, ack: int)

  /** `stored` is the history of every packet accepted; the slots of the buffer hold those not
      below `start`.  `taken` are the packets read out of order and not yet released.
      `out` is what `recv` has returned so far, `got` what `recvmsg` has returned. */
  datatype Rcv = Rcv(
    size: nat, isStream: bool,
    stored: map<int, Frag>, lastAck: int, lastAckAck: int, curr: int, loss: set<int>,
    ackNo: int, acks: seq<AckRecord>,
    start: int, taken: set<int>, notch: nat,
    out: seq<Byte>, got: seq<Delivery>)

  ghost function InitRcv(size: nat, isStream: bool): Rcv {
    Rcv(size, isStream, map[], 0, 0, -1, {}, 0, [], 0, {}, 0, [], [])
  }

  const ACK_WINDOW_SIZE: nat := 1024

  function Avail(r: Rcv): int {
    r.size - (r.lastAck - r.start) - 1
  }

  /** `processData` */
  ghost function OnData(r: Rcv, n: int, f: Frag): (Rcv, seq<Msg>) {
    var offset := n - r.lastAck;
    if offset < 0 || offset >= Avail(r) || n in r.stored then (r, [])
    else NoteArrival(r.(stored := r.stored[n := f]), n)
  }

  /** Loss detection: a packet beyond the expected one is reported at once; a retransmitted packet is
      no longer lost. */
  ghost function NoteArrival(r: Rcv, n: int): (Rcv, seq<Msg>) {
    if n > r.curr + 1 then
      (r.(loss := r.loss + Interval(r.curr + 1, n - 1), curr := n), [Nak([LossReport(r.curr + 1, n - 1)])])
    else if n > r.curr then (r.(curr := n), [])
    else (r.(loss := r.loss - {n}), [])
  }

  function LossReport(a: int, b: int): LossItem {
    if a == b then Single(b) else Pair(a, b)
  }

  /** The number `sendCtrl` acknowledges: the smallest lost number or the next expected one. */
  ghost function AckValue(r: Rcv): int {
    if r.loss == {} then r.curr + 1 else Min(r.loss)
  }

  function IncAck(no: int): int {
    if no == 0x7FFF_FFFF then 0 else no + 1
  }

  function AdvertisedWindow(r: Rcv): int {
    if Avail(r) < 2 then 2 else Avail(r)
  }

  /** `CACKWindow::store` */
  function StoreAck(acks: seq<AckRecord>, rec: AckRecord): seq<AckRecord> {
    LastOf(acks + [rec], ACK_WINDOW_SIZE - 1)
  }

  /** The last `k` elements, or all when there are not so many. */
  function LastOf<T>(s: seq<T>, k: nat): seq<T> {
    if |s| <= k then s else s[|s| - k..]
  }

  /** `sendCtrl(2)`: a full acknowledgement; `due` says that enough time has passed to repeat one. */
  ghost function SendAck(r: Rcv, due: bool): (Rcv, seq<Msg>) {
    var ack := AckValue(r);
    if ack == r.lastAckAck || ack < r.lastAck || (ack == r.lastAck && !due) then (r, [])
    else
      var r1 := r.(lastAck := ack);
      if ack <= r.lastAckAck then (r1, [])
      else
        var no := IncAck(r.ackNo);
        (r1.(ackNo := no, acks := StoreAck(r.acks, AckRecord(no, ack))), [Ack(no, ack, AdvertisedWindow(r1))])
  }

  /** `sendCtrl(2)` with size 4 */
  ghost function SendLightAck(r: Rcv): seq<Msg> {
    if AckValue(r) == r.lastAckAck then [] else [LightAck(AckValue(r))]
  }

  /** The position of an acknowledgement in the history, or the length of the history. */
  function FindAck(acks: seq<AckRecord>, no: int): (i: nat)
    ensures i <= |acks|
    ensures forall j :: 0 <= j < i ==> acks[j].ackNo != no
    ensures i < |acks| ==> acks[i].ackNo == no
  {
    if acks == [] || acks[0].ackNo == no then 0 else 1 + FindAck(acks[1..], no)
  }

  /** ACK2: forget the acknowledgement and everything older; `positive` says that the measured
      round-trip time is positive. */
  ghost function OnAck2(r: Rcv, no: int, positive: bool): Rcv {
    var i := FindAck(r.acks, no);
    if i == |r.acks| then r
    else
      var r1 := r.(acks := r.acks[i + 1..]);
      if positive && r.acks[i].ack > r.lastAckAck then r1.(lastAckAck := r.acks[i].ack) else r1
  }

  // ----- reading a stream

  datatype Cursor = Cursor(pos: int, notch: nat, data: seq<Byte>)

  predicate Readable(stored: map<int, Frag>, p: int, ack: int, notch: nat) {
    && (forall n :: p <= n < ack ==> n in stored && stored[n].data != [])
    && (if p < ack then notch < |stored[p].data| else p == ack && notch == 0)
  }

  /** `readBuffer`: copy up to `rs` bytes starting `notch` bytes into packet `p`. */
  function ReadFrom(stored: map<int, Frag>, p: int, ack: int, notch: nat, rs: nat): (c: Cursor)
    requires Readable(stored, p, ack, notch)
    ensures p <= c.pos <= ack && Readable(stored, c.pos, ack, c.notch)
    decreases ack - p
  {
    if p == ack || rs == 0 then Cursor(p, notch, [])
    else
      var left := stored[p].data[notch..];
      if rs < |left| then Cursor(p, notch + rs, left[..rs])
      else
        var c := ReadFrom(stored, p + 1, ack, 0, rs - |left|);
        c.(data := left + c.data)
  }

  ghost function Recv(r: Rcv, len: nat): Rcv {
    if !Readable(r.stored, r.start, r.lastAck, r.notch) then r
    else
      var c := ReadFrom(r.stored, r.start, r.lastAck, r.notch, len);
      r.(start := c.pos, notch := c.notch, out := r.out + c.data)
  }

  // ----- reading messages

  /** Packets already read at the front of the acknowledged part are released. */
  function SkipTaken(r: Rcv): (r': Rcv)
    decreases r.lastAck - r.start
  {
    if r.start < r.lastAck && r.start in r.taken
    then SkipTaken(r.(start := r.start + 1, taken := r.taken - {r.start}))
    else r
  }

  lemma {:induction false} SkipTakenMeaning(r: Rcv)
    ensures var r' := SkipTaken(r);
            && r' == r.(start := r'.start, taken := r'.taken)
            && r.start <= r'.start
            && (r.start <= r.lastAck ==> r'.start <= r.lastAck)
            && (forall n :: r.start <= n < r'.start ==> n in r.taken)
            && (forall n :: n in r'.taken <==> n in r.taken && !(r.start <= n < r'.start))
            && (r'.start < r.lastAck ==> r'.start !in r'.taken)
    decreases r.lastAck - r.start
  {
    if r.start < r.lastAck && r.start in r.taken {
      var r1 := r.(start := r.start + 1, taken := r.taken - {r.start});
      SkipTakenMeaning(r1);
      assert forall n :: n in r1.taken <==> n in r.taken && n != r.start;
    }
  }

  /** The packets `p..q` are all there, unread, and their flags say that they are one message. */
  predicate Whole(r: Rcv, p: int, q: int) {
    && p <= q
    && r.start <= p
    && (forall n :: p <= n <= q ==> n in r.stored && n !in r.taken)
    && (forall n :: p <= n <= q ==> (IsFirst(r.stored[n]) <==> n == p))
    && (forall n :: p <= n <= q ==> (IsLast(r.stored[n]) <==> n == q))
  }

  /** An in-order message must be acknowledged up to its last packet before it may be read. */
  predicate Deliverable(r: Rcv, p: int, q: int) {
    Whole(r, p, q) && (q < r.lastAck || !InOrder(r.stored[q]))
  }

  function Slice(stored: map<int, Frag>, p: int, q: int): (fs: seq<Frag>)
    requires forall n :: p <= n <= q ==> n in stored
  {
    if p > q then [] else seq(q - p + 1, i requires 0 <= i < q - p + 1 => stored[p + i])
  }

  function Truncated(data: seq<Byte>, len: nat): seq<Byte> {
    if |data| <= len then data else data[..len]
  }

  /** The beginning of the message, as much of it as there is room for. */
  lemma TruncatedIsPrefix(data: seq<Byte>, len: nat)
    ensures Truncated(data, len) <= data
    ensures |Truncated(data, len)| == len || (|data| < len && Truncated(data, len) == data)
  {
  }

  /** `readMsg` after the skip has found the message `p..q`. */
  function Take(r: Rcv, p: int, q: int, len: nat): Rcv
    requires Deliverable(r, p, q)
  {
    var d := Delivery(p, q, len, Truncated(Bytes(Slice(r.stored, p, q)), len));
    if q < r.lastAck then r.(start := q + 1, got := r.got + [d])
    else r.(taken := r.taken + Interval(p, q), got := r.got + [d])
  }

  /** The test `readMsg` starts with: nothing acknowledged is unread and nothing lies beyond the
      first unacknowledged slot. */
  ghost predicate LooksEmpty(r: Rcv) {
    r.start == r.lastAck && forall n :: n in r.stored ==> n <= r.lastAck
  }

  /** What `readMsg` does: give the first deliverable message to the user, or nothing when there is
      none or the buffer looks empty. */
  ghost predicate RecvMsg(r: Rcv, len: nat, r': Rcv) {
    var r0 := SkipTaken(r);
    if LooksEmpty(r) || forall p, q :: !Deliverable(r0, p, q) then r' == r0
    else exists p, q :: FirstDeliverable(r0, p, q) && r' == Take(r0, p, q, len)
  }

  ghost predicate FirstDeliverable(r: Rcv, p: int, q: int) {
    Deliverable(r, p, q) && forall p', q' :: Deliverable(r, p', q') ==> p <= p'
  }

  /** A message is deliverable and the early exit does not see it, if and only if nothing acknowledged is
      unread and the last packet there is lies right behind, is a message of its own and needs no order. */
  lemma HiddenMessage(r: Rcv)
    ensures LooksEmpty(r) && (exists p, q :: Deliverable(r, p, q)) <==>
            var n := r.start;
            && n == r.lastAck && n in r.stored && n !in r.taken && (forall m :: m in r.stored ==> m <= n)
            && IsFirst(r.stored[n]) && IsLast(r.stored[n]) && !InOrder(r.stored[n])
  {
    var n := r.start;
    if p, q :| LooksEmpty(r) && Deliverable(r, p, q) {
      assert q in r.stored && p == q == n;
    }
    if n in r.stored && n !in r.taken && IsFirst(r.stored[n]) && IsLast(r.stored[n]) && !InOrder(r.stored[n]) {
      assert Deliverable(r, n, n);
    }
  }

  /** There is such a message: the first packet of a connection before it is acknowledged. */
  lemma MessageCanHide(size: nat)
    requires size >= 2
    ensures var f := Frag([1], Header(true, true, false, 1));
            var r := OnData(InitRcv(size, false), 0, f).0;
            LooksEmpty(r) && Deliverable(r, 0, 0)
  {
    var f := Frag([1], Header(true, true, false, 1));
    var r := OnData(InitRcv(size, false), 0, f).0;
    assert r.stored == map[0 := f];
    assert Whole(r, 0, 0);
  }
}
