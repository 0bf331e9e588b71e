/** Data packets as the buffers see them, and the fragmentation of user messages into packets
    (udt4/src/packet.cpp:56-74 and 328-344, udt4/src/buffer.cpp:120-164). */
module Packets {

  type Byte = b: int | 0 <= b < 256

  /** The fields of the second header word. */
  datatype Header = Header(first: bool, last: bool, inOrder: bool, no: bv32)

  /** A payload with its message fields. */
  datatype Frag = Frag(data: seq<Byte>, hdr: Header)

  /** A user message as it was accepted by `addBuffer`. */
  datatype Message = Message(data: seq<Byte>, no: bv32, inOrder: bool)

  const MAX_MSG_NO: bv32 := 0x1FFF_FFFF

  predicate IsFirst(f: Frag) {
    f.hdr.first
  }

  predicate IsLast(f: Frag) {
    f.hdr.last
  }

  predicate InOrder(f: Frag) {
    f.hdr.inOrder
  }

  // ----- fragmentation

  /** The fragments of the rest of a message; `first` tells whether the rest is all of it. */
  function Chop(data: seq<Byte>, no: bv32, inOrder: bool, first: bool, mss: nat): (fs: seq<Frag>)
    requires mss > 0
    decreases |data|
  {
    if data == [] then []
    else if |data| <= mss then [Frag(data, Header(first, true, inOrder, no))]
    else [Frag(data[..mss], Header(first, false, inOrder, no))] + Chop(data[mss..], no, inOrder, false, mss)
  }

  function Fragments(m: Message, mss: nat): seq<Frag>
    requires mss > 0
  {
    Chop(m.data, m.no, m.inOrder, true, mss)
  }

  /** Everything the receiver relies on when it puts a message together again. */
  ghost predicate Framed(fs: seq<Frag>, no: bv32, inOrder: bool, first: bool) {
    forall i :: 0 <= i < |fs| ==>
      && fs[i].data != []
      && (IsFirst(fs[i]) <==> first && i == 0)
      && (IsLast(fs[i]) <==> i == |fs| - 1)
      && (InOrder(fs[i]) <==> inOrder)
      && fs[i].hdr.no == no
  }

  /** The bytes carried by a sequence of fragments. */
  function Bytes(fs: seq<Frag>): seq<Byte> {
    if fs == [] then [] else Bytes(fs[..|fs| - 1]) + fs[|fs| - 1].data
  }

  lemma {:induction false} BytesAppend(xs: seq<Frag>, ys: seq<Frag>)
    ensures Bytes(xs + ys) == Bytes(xs) + Bytes(ys)
  {
    if ys == [] {
      assert xs + ys == xs;
    } else {
      BytesAppend(xs, ys[..|ys| - 1]);
      assert (xs + ys)[..|xs + ys| - 1] == xs + ys[..|ys| - 1];
    }
  }

  lemma BytesSingle(f: Frag)
    ensures Bytes([f]) == f.data
  {
    assert [f][..0] == [];
  }

  lemma {:induction false} ChopBytes(data: seq<Byte>, no: bv32, inOrder: bool, first: bool, mss: nat)
    requires mss > 0
    ensures Bytes(Chop(data, no, inOrder, first, mss)) == data
    decreases |data|
  {
    var fs := Chop(data, no, inOrder, first, mss);
    if data == [] {
    } else if |data| <= mss {
      BytesSingle(fs[0]);
    } else {
      ChopBytes(data[mss..], no, inOrder, false, mss);
      BytesSingle(fs[0]);
      BytesAppend([fs[0]], Chop(data[mss..], no, inOrder, false, mss));
    }
  }

  lemma {:induction false} ChopFramed(data: seq<Byte>, no: bv32, inOrder: bool, first: bool, mss: nat)
    requires mss > 0
    ensures var fs := Chop(data, no, inOrder, first, mss);
            && Framed(fs, no, inOrder, first)
            && (data == [] <==> fs == [])
            && (forall i :: 0 <= i < |fs| ==> |fs[i].data| <= mss)
    decreases |data|
  {
    if |data| > mss {
      ChopFramed(data[mss..], no, inOrder, false, mss);
    }
  }

  /** A message's fragments are framed and carry exactly its bytes. */
  lemma FragmentsAreFaithful(m: Message, mss: nat)
    requires mss > 0
    ensures var fs := Fragments(m, mss);
            && Bytes(fs) == m.data
            && Framed(fs, m.no, m.inOrder, true)
            && (m.data == [] <==> fs == [])
            && (forall i :: 0 <= i < |fs| ==> |fs[i].data| <= mss)
  {
    ChopBytes(m.data, m.no, m.inOrder, true, mss);
    ChopFramed(m.data, m.no, m.inOrder, true, mss);
  }

  // ----- the packet stream of a sender

  /** All fragments of a log of messages, oldest first. */
  function Stream(log: seq<Message>, mss: nat): seq<Frag>
    requires mss > 0
  {
    if log == [] then []
    else Stream(log[..|log| - 1], mss) + Fragments(log[|log| - 1], mss)
  }

  function UserBytes(log: seq<Message>): seq<Byte> {
    if log == [] then [] else UserBytes(log[..|log| - 1]) + log[|log| - 1].data
  }

  predicate GoodMessage(m: Message) {
    m.data != []
  }

  predicate GoodLog(log: seq<Message>) {
    forall k :: 0 <= k < |log| ==> GoodMessage(log[k])
  }

  /** The packet stream carries the user's bytes, no more and no fewer. */
  lemma {:induction false} StreamCarriesBytes(log: seq<Message>, mss: nat)
    requires mss > 0 && GoodLog(log)
    ensures Bytes(Stream(log, mss)) == UserBytes(log)
  {
    if log != [] {
      var front, m := log[..|log| - 1], log[|log| - 1];
      StreamCarriesBytes(front, mss);
      FragmentsAreFaithful(m, mss);
      BytesAppend(Stream(front, mss), Fragments(m, mss));
    }
  }

  /** Message `k` occupies the packet numbers from `MsgStart(log, k)` up to `MsgStart(log, k + 1)`. */
  function MsgStart(log: seq<Message>, mss: nat, k: nat): nat
    requires mss > 0 && k <= |log|
  {
    |Stream(log[..k], mss)|
  }

  lemma {:induction false} MsgIsSlice(log: seq<Message>, mss: nat, k: nat)
    requires mss > 0 && k < |log|
    ensures MsgStart(log, mss, k) <= MsgStart(log, mss, k + 1) <= |Stream(log, mss)|
    ensures Stream(log, mss)[MsgStart(log, mss, k)..MsgStart(log, mss, k + 1)] == Fragments(log[k], mss)
  {
    var n := |log|;
    var front := log[..n - 1];
    if k == n - 1 {
      assert log[..k] == front && log[..k + 1] == log;
    } else {
      MsgIsSlice(front, mss, k);
      assert front[..k] == log[..k] && front[..k + 1] == log[..k + 1];
      assert Stream(log, mss) == Stream(front, mss) + Fragments(log[n - 1], mss);
    }
  }

  /** Every packet number belongs to a message. */
  lemma {:induction false} MsgOf(log: seq<Message>, mss: nat, n: nat) returns (k: nat)
    requires mss > 0 && n < |Stream(log, mss)|
    ensures k < |log| && MsgStart(log, mss, k) <= n < MsgStart(log, mss, k + 1)
  {
    var front := log[..|log| - 1];
    if n < |Stream(front, mss)| {
      k := MsgOf(front, mss, n);
      assert front[..k] == log[..k] && front[..k + 1] == log[..k + 1];
    } else {
      k := |log| - 1;
      assert log[..k] == front && log[..k + 1] == log;
    }
  }

  /** The flags of a packet of the stream say where it lies in its message. */
  lemma StreamFlags(log: seq<Message>, mss: nat, k: nat, n: nat)
    requires mss > 0 && GoodLog(log) && k < |log|
    requires MsgStart(log, mss, k) <= n < MsgStart(log, mss, k + 1)
    ensures n < |Stream(log, mss)|
    ensures var f := Stream(log, mss)[n];
            && f.data != [] && |f.data| <= mss
            && (IsFirst(f) <==> n == MsgStart(log, mss, k))
            && (IsLast(f) <==> n == MsgStart(log, mss, k + 1) - 1)
            && (InOrder(f) <==> log[k].inOrder) && f.hdr.no == log[k].no
  {
    MsgIsSlice(log, mss, k);
    var m := log[k];
    FragmentsAreFaithful(m, mss);
    var fs := Fragments(m, mss);
    assert Stream(log, mss)[n] == fs[n - MsgStart(log, mss, k)];
  }

  lemma {:induction false} MsgStartMonotone(log: seq<Message>, mss: nat, j: nat, k: nat)
    requires mss > 0 && j <= k <= |log|
    ensures MsgStart(log, mss, j) <= MsgStart(log, mss, k) <= |Stream(log, mss)|
  {
    if k < |log| {
      MsgIsSlice(log, mss, k);
    } else {
      assert log[..k] == log;
    }
    if j < k {
      MsgStartMonotone(log, mss, j, k - 1);
      MsgIsSlice(log, mss, k - 1);
    }
  }

  /** A run of packets that starts with a first and ends with a last fragment, with no other
      last fragment in between, is exactly one message. */
  lemma RunIsMessage(log: seq<Message>, mss: nat, p: nat, q: nat) returns (k: nat)
    requires mss > 0 && GoodLog(log) && p <= q < |Stream(log, mss)|
    requires IsFirst(Stream(log, mss)[p]) && IsLast(Stream(log, mss)[q])
    requires forall n :: p <= n < q ==> !IsLast(Stream(log, mss)[n])
    ensures k < |log| && p == MsgStart(log, mss, k) && q + 1 == MsgStart(log, mss, k + 1)
    ensures Bytes(Stream(log, mss)[p..q + 1]) == log[k].data
  {
    k := MsgOf(log, mss, p);
    StreamFlags(log, mss, k, p);
    MsgIsSlice(log, mss, k);
    var end := MsgStart(log, mss, k + 1) - 1;
    StreamFlags(log, mss, k, end);
    if q < end {
      StreamFlags(log, mss, k, q);
    }
    assert q == end;
    FragmentsAreFaithful(log[k], mss);
  }
}
