/** The send buffer (udt4/src/buffer.cpp:47-342): a circular list of blocks, each with its own area
    in one of the physical buffers.  The list grows when a message does not fit. */
module SndBuffers {
  import opened Packets
  import opened HeaderWord
  import opened Ring

  class Block {
    const buffer: array<Byte>   // the physical buffer and where in it
    const offset: nat           // this block's area begins
    var length: int
    var hdr: Header
    var next: Block?

    constructor (buffer: array<Byte>, offset: nat)
      ensures this.buffer == buffer && this.offset == offset
      ensures next == null
    {
      this.buffer := buffer;
      this.offset := offset;
      length := 0;
      hdr := Header(false, false, false, 0);
      next := null;
    }
  }

  /** The areas of the blocks lie within their buffers and do not overlap. */
  ghost predicate Disjoint(bs: seq<Block>, mss: nat) {
    && (forall i :: 0 <= i < |bs| ==> bs[i].offset + mss <= bs[i].buffer.Length)
    && (forall i, j :: 0 <= i < |bs| && 0 <= j < |bs| && i != j ==> bs[i] != bs[j] && Apart(bs[i], bs[j], mss))
  }

  ghost predicate Apart(b: Block, c: Block, mss: nat) {
    b.buffer != c.buffer || b.offset + mss <= c.offset || c.offset + mss <= b.offset
  }

  function Next(i: int, n: int): int {
    if i + 1 < n then i + 1 else 0
  }

  /** The blocks form a ring. */
  ghost predicate Linked(bs: seq<Block>)
    reads bs`next
  {
    forall i :: 0 <= i < |bs| ==> bs[i].next == bs[Next(i, |bs|)]
  }

  function Buffers(bs: seq<Block>): set<array<Byte>> {
    set b | b in bs :: b.buffer
  }

  function Blocks(bs: seq<Block>): set<Block> {
    set b | b in bs
  }

  /** Block `b` holds the fragment `f`. */
  ghost predicate Stores(b: Block, f: Frag, mss: nat)
    reads b`length, b`hdr, b.buffer
  {
    && b.offset + mss <= b.buffer.Length
    && 0 < b.length <= mss
    && b.hdr == f.hdr
    && b.buffer[b.offset..b.offset + b.length] == f.data
  }

  /** The blocks hold the fragments, in order from the first block. */
  ghost predicate Holds(bs: seq<Block>, fs: seq<Frag>, mss: nat)
    reads bs`length, bs`hdr, Buffers(bs)
  {
    && |fs| <= |bs|
    && forall i :: 0 <= i < |fs| ==> Stores(bs[i], fs[i], mss)
  }

  class SndBuffer {
    const mss: nat
    const unitSize: nat          // the number of blocks in a physical buffer
    var firstBlock: Block
    var currBlock: Block
    var lastBlock: Block
    var nextMsgNo: bv32
    var size: nat
    var count: nat

    ghost var blocks: seq<Block>  // the ring, from the first block on
    ghost var frags: seq<Frag>    // the unacknowledged fragments
    ghost var curr: nat           // how many of them have been read

    ghost predicate Valid()
      reads this, blocks, Buffers(blocks)
      ensures Valid() ==> mss > 0 && curr <= count == |frags|
    {
      && mss > 0 && unitSize > 0
      && |blocks| == size && |frags| == count && curr <= count < size
      && Disjoint(blocks, mss) && Linked(blocks)
      && firstBlock == blocks[0] && currBlock == blocks[curr] && lastBlock == blocks[count]
      && Holds(blocks, frags, mss)
    }

    /** `addBuffer` numbers messages from 1. */
    constructor (n: nat, mss: nat)
      requires n > 0 && mss > 0
      ensures Valid() && fresh(blocks) && fresh(Buffers(blocks))
      ensures this.mss == mss && frags == [] && curr == 0 && nextMsgNo == 1
    {
      var head, tail;
      ghost var bs;
      head, tail, bs := NewBlocks(n, mss);
      tail.next := head;
      this.mss, unitSize := mss, n;
      firstBlock, currBlock, lastBlock := head, head, head;
      nextMsgNo := 1;
      size, count := n, 0;
      blocks, frags, curr := bs, [], 0;
    }

    function GetCurrBufSize(): nat
      reads this
    {
      count
    }

    /** Add another physical buffer's worth of blocks behind the last block. */
    method Increase()
      requires Valid()
      modifies this, blocks
      ensures Valid() && size == old(size) + unitSize
      ensures frags == old(frags) && curr == old(curr) && nextMsgNo == old(nextMsgNo) && count == old(count)
      ensures Extends(old(blocks), blocks)
    {
      hide Disjoint, Stores, Linked, Spliced, Next;
      var head, tail;
      ghost var bs;
      head, tail, bs := NewBlocks(unitSize, mss);
      DisjointAfterSplice(blocks, bs, count, mss);
      SplicedAt(blocks, count, bs);
      DistinctBlocks(blocks, mss);
      DistinctBlocks(bs, mss);
      LinkIn(head, tail, bs);
      ghost var ring := Spliced(blocks, count, bs);
      SplicedMembers(blocks, count, bs);
      blocks := ring;
      size := size + unitSize;
      assert Holds(blocks, frags, mss);
    }

    method LinkIn(head: Block, tail: Block, ghost bs: seq<Block>)
      requires Linked(blocks) && count < |blocks| && lastBlock == blocks[count]
      requires |bs| > 0 && head == bs[0] && tail == bs[|bs| - 1]
      requires forall i :: 0 <= i < |bs| - 1 ==> bs[i].next == bs[i + 1]
      requires forall i, j :: 0 <= i < j < |blocks| ==> blocks[i] != blocks[j]
      requires forall i, j :: 0 <= i < j < |bs| ==> bs[i] != bs[j]
      requires forall i, j :: 0 <= i < |blocks| && 0 <= j < |bs| ==> blocks[i] != bs[j]
      modifies lastBlock`next, tail`next
      ensures Linked(Spliced(blocks, count, bs))
    {
      hide Spliced;
      tail.next := lastBlock.next;
      lastBlock.next := head;
      ghost var ring := Spliced(blocks, count, bs);
      SplicedAt(blocks, count, bs);
      forall i | 0 <= i < |ring| ensures ring[i].next == ring[Next(i, |ring|)] {
        assert i <= count ==> ring[i] == blocks[i];
        assert count < i <= count + |bs| ==> ring[i] == bs[i - count - 1];
        assert count + |bs| < i ==> ring[i] == blocks[i - |bs|];
      }
    }

    /** Split a message over the blocks from the last block on, growing the ring first if it
        does not fit. */
    method AddBuffer(data: seq<Byte>, inOrder: bool)
      requires Valid()
      modifies this, blocks, Buffers(blocks)
      ensures Valid() && Extends(old(blocks), blocks)
      ensures frags == old(frags) + Fragments(Message(data, old(nextMsgNo), inOrder), mss)
      ensures curr == old(curr) && nextMsgNo == NextMsgNo(old(nextMsgNo))
    {
      hide Disjoint, Stores, Linked, Holds, Fragments, NextMsgNo, PacketCount;
      Grow(PacketCount(|data|, mss));
      AddToRing(data, inOrder);
    }

    /** `addBuffer` when the message fits. */
    method AddToRing(data: seq<Byte>, inOrder: bool)
      requires Valid() && PacketCount(|data|, mss) + count < size
      modifies this, blocks`length, blocks`hdr, Buffers(blocks)
      ensures Valid() && blocks == old(blocks)
      ensures frags == old(frags) + Fragments(Message(data, old(nextMsgNo), inOrder), mss)
      ensures curr == old(curr) && nextMsgNo == NextMsgNo(old(nextMsgNo))
    {
      hide Disjoint, Stores, Linked, Holds, Fragments, NextMsgNo, PacketCount;
      var n := PacketCount(|data|, mss);
      ghost var fs := WriteBlocks(data, inOrder, n);
      frags := frags + fs;
      count := count + n;
      nextMsgNo := NextMsgNo(nextMsgNo);
    }

    /** The growing loop of `addBuffer`. */
    method Grow(n: nat)
      requires Valid()
      modifies this, blocks
      ensures Valid() && n + count < size
      ensures frags == old(frags) && curr == old(curr) && nextMsgNo == old(nextMsgNo) && count == old(count)
      ensures Extends(old(blocks), blocks)
    {
      hide Disjoint, Stores, Linked, Holds;
      while n + count >= size
        invariant Valid() && frags == old(frags) && curr == old(curr) && nextMsgNo == old(nextMsgNo)
        invariant count == old(count)
        invariant Extends(old(blocks), blocks)
        decreases n + count - size
      {
        Increase();
      }
    }

    /** The copying loop of `addBuffer`. */
    method WriteBlocks(data: seq<Byte>, inOrder: bool, n: nat) returns (ghost fs: seq<Frag>)
      requires mss > 0 && n == PacketCount(|data|, mss) && n + count < |blocks|
      requires |frags| == count && lastBlock == blocks[count]
      requires Disjoint(blocks, mss) && Linked(blocks) && Holds(blocks, frags, mss)
      modifies this`lastBlock, blocks`length, blocks`hdr, Buffers(blocks)
      ensures fs == Fragments(Message(data, nextMsgNo, inOrder), mss) && |fs| == n
      ensures lastBlock == blocks[count + n] && Linked(blocks) && Holds(blocks, frags + fs, mss)
    {
      hide Disjoint, Stores, Linked, Chop, Holds, PacketCount, Next;
      fs := Fragments(Message(data, nextMsgNo, inOrder), mss);
      NumberOfPackets(|data|, mss, n);
      ChopAt(data, nextMsgNo, inOrder, true, mss, n);
      var s := lastBlock;
      var i := 0;
      assert frags + fs[..0] == frags;
      while i < n
        invariant 0 <= i <= n && s == blocks[count + i]
        invariant Linked(blocks)
        invariant Holds(blocks, frags + fs[..i], mss)
      {
        var pktlen := |data| - i * mss;
        if pktlen > mss {
          pktlen := mss;
        }
        WriteBlock(s, data[i * mss..i * mss + pktlen], Header(i == 0, i == n - 1, inOrder, nextMsgNo), frags + fs[..i]);
        assert frags + fs[..i + 1] == frags + fs[..i] + [fs[i]];
        NextOf(blocks, count + i);
        s := s.next;
        i := i + 1;
      }
      assert fs[..n] == fs;
      lastBlock := s;
    }

    method WriteBlock(b: Block, bytes: seq<Byte>, h: Header, ghost before: seq<Frag>)
      requires Disjoint(blocks, mss) && Holds(blocks, before, mss) && |before| < |blocks| && b == blocks[|before|]
      requires 0 < |bytes| <= mss
      modifies b`length, b`hdr, b.buffer
      ensures Holds(blocks, before + [Frag(bytes, h)], mss)
    {
      forall k | 0 <= k < |bytes| {
        b.buffer[b.offset + k] := bytes[k];
      }
      b.length := |bytes|;
      b.hdr := h;
      forall k | 0 <= k < |before| ensures Stores(blocks[k], before[k], mss) {
        var c := blocks[k];
        assert old(Stores(c, before[k], mss)) && Apart(c, b, mss) && c != b;
        assert c.buffer[c.offset..c.offset + c.length] == old(c.buffer[c.offset..c.offset + c.length]);
      }
      assert b.buffer[b.offset..b.offset + b.length] == bytes;
    }

    /** The next fragment that has never been sent; no bytes when there is none. */
    method ReadData() returns (readlen: nat, f: Frag)
      requires Valid()
      modifies `currBlock, `curr
      ensures Valid()
      ensures if old(curr) == count then readlen == 0 && curr == old(curr)
              else f == frags[old(curr)] && readlen == |f.data| > 0 && curr == old(curr) + 1
    {
      if currBlock == lastBlock {
        DistinctBlocks(blocks, mss);
        return 0, Frag([], Header(false, false, false, 0));
      }
      var b := currBlock;
      assert Stores(b, frags[curr], mss);
      f := Frag(b.buffer[b.offset..b.offset + b.length], b.hdr);
      readlen := b.length;
      NextOf(blocks, curr);
      currBlock := b.next;
      curr := curr + 1;
    }

    /** A fragment that is sent again, `offset` blocks behind the first. */
    method ReadDataAt(offset: nat) returns (readlen: nat, f: Frag)
      requires Valid() && offset < count
      ensures f == frags[offset] && readlen == |f.data| > 0
    {
      var p := WalkFrom(offset);
      assert Stores(p, frags[offset], mss);
      f := Frag(p.buffer[p.offset..p.offset + p.length], p.hdr);
      readlen := p.length;
    }

    /** Follow `n` links from the first block. */
    method WalkFrom(n: nat) returns (p: Block)
      requires Valid() && n < size
      ensures p == blocks[n]
    {
      p := firstBlock;
      for i := 0 to n
        invariant p == blocks[i]
      {
        NextOf(blocks, i);
        p := p.next;
      }
    }

    /** Release the first `offset` blocks. */
    method AckData(offset: nat)
      requires Valid() && offset <= curr
      modifies this
      ensures Valid() && frags == old(frags)[offset..] && curr == old(curr) - offset
      ensures nextMsgNo == old(nextMsgNo)
      ensures Blocks(blocks) == Blocks(old(blocks)) && Buffers(blocks) == Buffers(old(blocks))
    {
      hide Disjoint, Stores, Linked, Rotated, Holds, Blocks;
      var first := WalkFrom(offset);
      RotatedRing(blocks, offset, mss);
      RotatedHolds(blocks, frags, offset, mss);
      RotatedAt(blocks, offset, 0);
      RotatedAt(blocks, offset, curr - offset);
      RotatedAt(blocks, offset, count - offset);
      firstBlock := first;
      count := count - offset;
      blocks := Rotated(blocks, offset);
      frags := frags[offset..];
      curr := curr - offset;
    }
  }

  /** The new ring has the old blocks and new ones, over old buffers and new ones. */
  twostate predicate Extends(before: seq<Block>, new after: seq<Block>) {
    && (forall i :: 0 <= i < |after| ==> after[i] in before || fresh(after[i]))
    && (forall a :: a in Buffers(after) ==> a in Buffers(before) || fresh(a))
  }

  lemma SplicedMembers(bs: seq<Block>, k: nat, added: seq<Block>)
    requires k < |bs|
    ensures var r := Spliced(bs, k, added);
            && (forall i :: 0 <= i < |r| ==> r[i] in bs || r[i] in added)
            && Buffers(r) == Buffers(bs) + Buffers(added)
  {
    var r := Spliced(bs, k, added);
    forall b ensures b in r <==> b in bs || b in added {
      assert bs == bs[..k + 1] + bs[k + 1..];
    }
  }

  function Spliced<T>(s: seq<T>, k: nat, t: seq<T>): seq<T>
    requires k < |s|
  {
    s[..k + 1] + t + s[k + 1..]
  }

  lemma SplicedAt<T>(s: seq<T>, k: nat, t: seq<T>)
    requires k < |s|
    ensures var r := Spliced(s, k, t);
            && |r| == |s| + |t|
            && (forall i :: 0 <= i <= k ==> r[i] == s[i])
            && (forall i :: k < i <= k + |t| ==> r[i] == t[i - k - 1])
            && (forall i :: k + |t| < i < |r| ==> r[i] == s[i - |t|])
  {
  }

  lemma DistinctBlocks(bs: seq<Block>, mss: nat)
    requires Disjoint(bs, mss)
    ensures forall i, j :: 0 <= i < j < |bs| ==> bs[i] != bs[j]
  {
  }

  lemma DisjointAfterSplice(bs: seq<Block>, added: seq<Block>, k: nat, mss: nat)
    requires Disjoint(bs, mss) && Disjoint(added, mss) && k < |bs|
    requires Buffers(bs) !! Buffers(added)
    ensures Disjoint(Spliced(bs, k, added), mss)
  {
    var r := Spliced(bs, k, added);
    SplicedAt(bs, k, added);
    forall i, j | 0 <= i < |r| && 0 <= j < |r| && i != j ensures r[i] != r[j] && Apart(r[i], r[j], mss) {
      FromEither(bs, added, k, i);
      FromEither(bs, added, k, j);
    }
  }

  /** A block of the spliced ring comes from one of the two parts, and so does its buffer. */
  lemma FromEither(bs: seq<Block>, added: seq<Block>, k: nat, i: int)
    requires k < |bs| && 0 <= i < |bs| + |added|
    ensures |Spliced(bs, k, added)| == |bs| + |added|
    ensures var b := Spliced(bs, k, added)[i];
            if k < i <= k + |added| then b == added[i - k - 1] && b.buffer in Buffers(added)
            else b == bs[if i <= k then i else i - |added|] && b.buffer in Buffers(bs)
  {
    SplicedAt(bs, k, added);
  }

  /** A new physical buffer and a chain of blocks over it. */
  method NewBlocks(n: nat, mss: nat) returns (head: Block, tail: Block, ghost bs: seq<Block>)
    requires n > 0 && mss > 0
    ensures fresh(bs) && fresh(Buffers(bs)) && |bs| == n && head == bs[0] && tail == bs[n - 1]
    ensures Disjoint(bs, mss)
    ensures forall i :: 0 <= i < n - 1 ==> bs[i].next == bs[i + 1]
  {
    var buffer := new Byte[n * mss];
    MulMonotone(1, n, mss);
    head := new Block(buffer, 0);
    tail, bs := head, [head];
    var i, pc := 1, mss;
    while i < n
      invariant 1 <= i <= n == n && pc == i * mss && |bs| == i && head == bs[0] && tail == bs[i - 1]
      invariant fresh(bs) && fresh(buffer)
      invariant forall k :: 0 <= k < i ==> bs[k].buffer == buffer && bs[k].offset == k * mss
      invariant forall k :: 0 <= k < i - 1 ==> bs[k].next == bs[k + 1]
      invariant forall j, k :: 0 <= j < k < i ==> bs[j] != bs[k]
    {
      MulMonotone(i + 1, n, mss);
      var b := new Block(buffer, pc);
      tail.next := b;
      tail, bs := b, bs + [b];
      pc := pc + mss;
      i := i + 1;
    }
    EvenlySpaced(bs, buffer, n, mss);
  }

  lemma EvenlySpaced(bs: seq<Block>, buffer: array<Byte>, n: nat, mss: nat)
    requires |bs| == n && buffer.Length == n * mss
    requires forall k :: 0 <= k < n ==> bs[k].buffer == buffer && bs[k].offset == k * mss
    requires forall j, k :: 0 <= j < k < n ==> bs[j] != bs[k]
    ensures Disjoint(bs, mss)
  {
    forall i | 0 <= i < n ensures bs[i].offset + mss <= bs[i].buffer.Length {
      MulMonotone(i + 1, n, mss);
    }
    forall i, j | 0 <= i < n && 0 <= j < n && i != j ensures bs[i] != bs[j] && Apart(bs[i], bs[j], mss) {
      if i < j {
        MulMonotone(i + 1, j, mss);
      } else {
        MulMonotone(j + 1, i, mss);
      }
    }
  }

  lemma NextOf(bs: seq<Block>, i: nat)
    requires Linked(bs) && i + 1 < |bs|
    ensures bs[i].next == bs[i + 1]
  {
  }

  function Rotated<T>(s: seq<T>, k: nat): seq<T>
    requires k <= |s|
  {
    s[k..] + s[..k]
  }

  lemma RotatedAt<T>(s: seq<T>, k: nat, i: nat)
    requires k <= |s| && i < |s|
    ensures |Rotated(s, k)| == |s|
    ensures Rotated(s, k)[i] == s[Origin(|s|, k, i)]
  {
  }

  lemma RotatedRing(bs: seq<Block>, k: nat, mss: nat)
    requires Disjoint(bs, mss) && Linked(bs) && k < |bs|
    ensures Disjoint(Rotated(bs, k), mss) && Linked(Rotated(bs, k))
    ensures Blocks(Rotated(bs, k)) == Blocks(bs) && Buffers(Rotated(bs, k)) == Buffers(bs)
  {
    RotatedDisjoint(bs, k, mss);
    RotatedLinked(bs, k);
    RotatedMembers(bs, k);
  }

  /** Where block `i` of the rotated ring was before. */
  function Origin(n: nat, k: nat, i: int): int {
    if i < n - k then k + i else i - (n - k)
  }

  lemma RotatedDisjoint(bs: seq<Block>, k: nat, mss: nat)
    requires Disjoint(bs, mss) && k < |bs|
    ensures Disjoint(Rotated(bs, k), mss)
  {
    hide Rotated;
    var r := Rotated(bs, k);
    forall i | 0 <= i < |bs| ensures |r| == |bs| && r[i] == bs[Origin(|bs|, k, i)] {
      RotatedAt(bs, k, i);
    }
    RotatedAt(bs, k, 0);
  }

  lemma RotatedLinked(bs: seq<Block>, k: nat)
    requires Linked(bs) && k < |bs|
    ensures Linked(Rotated(bs, k))
  {
    hide Rotated;
    var r := Rotated(bs, k);
    RotatedAt(bs, k, 0);
    forall i | 0 <= i < |r| ensures r[i].next == r[Next(i, |r|)] {
      RotatedAt(bs, k, i);
      RotatedAt(bs, k, Next(i, |r|));
      assert bs[Origin(|bs|, k, i)].next == bs[Next(Origin(|bs|, k, i), |bs|)];
    }
  }

  lemma RotatedHolds(bs: seq<Block>, fs: seq<Frag>, k: nat, mss: nat)
    requires k <= |fs| < |bs| && Holds(bs, fs, mss)
    ensures Holds(Rotated(bs, k), fs[k..], mss)
  {
    hide Rotated, Stores;
    RotatedAt(bs, k, 0);
    forall i | 0 <= i < |fs| - k ensures Stores(Rotated(bs, k)[i], fs[k..][i], mss) {
      RotatedAt(bs, k, i);
    }
  }

  lemma RotatedMembers(bs: seq<Block>, k: nat)
    requires k <= |bs|
    ensures Blocks(Rotated(bs, k)) == Blocks(bs) && Buffers(Rotated(bs, k)) == Buffers(bs)
  {
    hide Rotated;
    var r := Rotated(bs, k);
    RotatedMultiset(bs, k);
    assert forall b :: b in r <==> b in multiset(r);
    assert forall b :: b in bs <==> b in multiset(bs);
  }

  lemma RotatedMultiset<T>(s: seq<T>, k: nat)
    requires k <= |s|
    ensures multiset(Rotated(s, k)) == multiset(s)
  {
    assert s == s[..k] + s[k..];
  }

  // ----- the packets of a message

  function PacketCount(len: nat, mss: nat): nat
    requires mss > 0
  {
    len / mss + if len % mss != 0 then 1 else 0
  }

  lemma NumberOfPackets(len: nat, mss: nat, n: nat)
    requires mss > 0 && n == PacketCount(len, mss)
    ensures n == 0 <==> len == 0
    ensures n > 0 ==> (n - 1) * mss < len <= n * mss
  {
    assert len == mss * (len / mss) + len % mss;
  }

  /** Packet `i` of a message of `n` packets carries the bytes from `i * mss` on. */
  lemma {:induction false} ChopAt(data: seq<Byte>, no: bv32, inOrder: bool, first: bool, mss: nat, n: nat)
    requires mss > 0
    requires n == 0 <==> |data| == 0
    requires n > 0 ==> (n - 1) * mss < |data| <= n * mss
    ensures var fs := Chop(data, no, inOrder, first, mss);
            && |fs| == n
            && forall i :: 0 <= i < n ==>
                 PacketAt(data, i * mss, mss, fs[i], Header(first && i == 0, i == n - 1, inOrder, no))
    decreases |data|
  {
    hide PacketAt;
    var fs := Chop(data, no, inOrder, first, mss);
    if n == 0 {
    } else if n == 1 {
      assert |data| <= mss;
      OnlyPacket(data, mss, Header(first, true, inOrder, no));
    } else {
      ShortRest(|data|, mss, n);
      var rest := data[mss..];
      var tail := Chop(rest, no, inOrder, false, mss);
      ChopAt(rest, no, inOrder, false, mss, n - 1);
      forall i | 0 <= i < n
        ensures PacketAt(data, i * mss, mss, fs[i], Header(first && i == 0, i == n - 1, inOrder, no))
      {
        if i > 0 {
          PacketOfRest(data, (i - 1) * mss, mss, tail[i - 1], Header(false, i == n - 1, inOrder, no));
          assert i * mss == (i - 1) * mss + mss;
        } else {
          FirstPacket(data, mss, Header(first, false, inOrder, no));
        }
      }
    }
  }

  lemma OnlyPacket(data: seq<Byte>, mss: nat, h: Header)
    requires 0 < |data| <= mss
    ensures PacketAt(data, 0, mss, Frag(data, h), h)
  {
    assert data[0..|data|] == data;
  }

  lemma FirstPacket(data: seq<Byte>, mss: nat, h: Header)
    requires 0 < mss < |data|
    ensures PacketAt(data, 0, mss, Frag(data[..mss], h), h)
  {
  }

  lemma PacketOfRest(data: seq<Byte>, p: nat, mss: nat, f: Frag, h: Header)
    requires |data| > mss && PacketAt(data[mss..], p, mss, f, h)
    ensures PacketAt(data, p + mss, mss, f, h)
  {
    var len := if |data| - mss - p > mss then mss else |data| - mss - p;
    assert data[mss..][p..p + len] == data[p + mss..p + mss + len];
  }

  lemma ShortRest(len: nat, mss: nat, n: nat)
    requires mss > 0 && n > 1 && (n - 1) * mss < len <= n * mss
    ensures mss < len && (n - 2) * mss < len - mss <= (n - 1) * mss
  {
    assert (n - 1) * mss == (n - 2) * mss + mss && n * mss == (n - 1) * mss + mss;
    assert (n - 2) * mss >= 0;
  }

  /** The packet `f` carries the bytes from position `p` on. */
  ghost predicate PacketAt(data: seq<Byte>, p: int, mss: nat, f: Frag, h: Header) {
    var len := if |data| - p > mss then mss else |data| - p;
    && 0 <= p && 0 < len
    && f == Frag(data[p..p + len], h)
  }
}
