/** The MD5 message digest over a message given in pieces (udt4/src/md5.cpp:312-381): the block
    buffer, the bit count and the padding.  The compression function is a parameter. */
module Md5s {

  type Byte = b: int | 0 <= b < 256
  type Word = w: int | 0 <= w < 0x1_0000_0000

  datatype Registers = Registers(a: Word, b: Word, c: Word, d: Word)

  /** What `md5_process` does to the registers with a block of 64 bytes. */
  type Compression = (Registers, seq<Byte>) -> Registers

  // ----- RFC 1321

  /** Section 3.3. */
  const INITIAL: Registers := Registers(0x6745_2301, 0xefcd_ab89, 0x98ba_dcfe, 0x1032_5476)

  /** Section 2: a word is a group of four bytes, low-order byte first. */
  function WordBytes(w: Word): (bs: seq<Byte>)
    ensures |bs| == 4
  {
    [w % 0x100, w / 0x100 % 0x100, w / 0x1_0000 % 0x100, w / 0x100_0000]
  }

  /** The number that bytes stand for, the low-order one first. */
  function Value(bs: seq<Byte>): nat {
    if bs == [] then 0 else bs[0] + 0x100 * Value(bs[1..])
  }

  /** A word is written as the four bytes that stand for it, and no others do. */
  lemma WordBytesAreTheWord(w: Word, bs: seq<Byte>)
    requires |bs| == 4
    ensures Value(bs) == w <==> bs == WordBytes(w)
  {
    Digit(w);
    Digit(w / 0x100);
    Digit(w / 0x1_0000);
    FourBytes(bs);
    if Value(bs) == w {
      LastDigit(bs[0], Value(bs[1..]));
      LastDigit(bs[1], Value(bs[2..]));
      LastDigit(bs[2], Value(bs[3..]));
      assert bs == [bs[0], bs[1], bs[2], bs[3]];
    }
  }

  lemma Digit(x: nat)
    ensures x == x % 0x100 + 0x100 * (x / 0x100)
    ensures x / 0x100 / 0x100 == x / 0x1_0000
    ensures x / 0x1_0000 / 0x100 == x / 0x100_0000
  {
  }

  lemma LastDigit(b: Byte, rest: nat)
    ensures (b + 0x100 * rest) % 0x100 == b && (b + 0x100 * rest) / 0x100 == rest
  {
  }

  lemma FourBytes(bs: seq<Byte>)
    requires |bs| == 4
    ensures Value(bs) == bs[0] + 0x100 * Value(bs[1..])
    ensures Value(bs[1..]) == bs[1] + 0x100 * Value(bs[2..])
    ensures Value(bs[2..]) == bs[2] + 0x100 * Value(bs[3..])
    ensures Value(bs[3..]) == bs[3]
  {
    assert bs[1..][1..] == bs[2..];
    assert bs[2..][1..] == bs[3..];
    assert bs[3..][1..] == [];
  }

  function Zeros(n: nat): (bs: seq<Byte>)
    ensures |bs| == n
  {
    seq(n, _ => 0)
  }

  /** Section 3.1: one to 64 bytes of padding, a 1 bit and then 0 bits, leave 8 bytes of the last
      block free. */
  ghost predicate IsPadding(len: nat, pad: seq<Byte>) {
    1 <= |pad| <= 64 && (len + |pad|) % 64 == 56 && pad == [0x80] + Zeros(|pad| - 1)
  }

  /** Section 3.2: the low-order 64 bits of the length in bits, low-order word first. */
  function LengthField(bits: nat): seq<Byte> {
    WordBytes(bits % 0x1_0000_0000) + WordBytes(bits / 0x1_0000_0000 % 0x1_0000_0000)
  }

  /** The field stands for the length, as far as 64 bits can. */
  lemma {:induction false} LengthFieldIsLength(bits: nat)
    ensures |LengthField(bits)| == 8 && Value(LengthField(bits)) == bits % 0x1_0000_0000_0000_0000
  {
    hide WordBytes, Value;
    var lo, hi := bits % 0x1_0000_0000, bits / 0x1_0000_0000 % 0x1_0000_0000;
    TwoWords(bits);
    WordBytesAreTheWord(lo, WordBytes(lo));
    WordBytesAreTheWord(hi, WordBytes(hi));
    ValueJoin(WordBytes(lo), WordBytes(hi));
  }

  lemma TwoWords(bits: nat)
    ensures bits % 0x1_0000_0000 + 0x1_0000_0000 * (bits / 0x1_0000_0000 % 0x1_0000_0000)
            == bits % 0x1_0000_0000_0000_0000
  {
    var high := bits / 0x1_0000_0000;
    var top := high / 0x1_0000_0000;
    var rest := bits % 0x1_0000_0000 + 0x1_0000_0000 * (high % 0x1_0000_0000);
    assert bits == rest + 0x1_0000_0000_0000_0000 * top;
  }

  lemma {:induction false} ValueJoin(lo: seq<Byte>, hi: seq<Byte>)
    requires |lo| == 4
    ensures Value(lo + hi) == Value(lo) + 0x1_0000_0000 * Value(hi)
  {
    var bs := lo + hi;
    FourBytes(lo);
    assert bs[1..][1..] == bs[2..];
    assert bs[2..][1..] == bs[3..];
    assert bs[3..][1..] == hi;
    assert Value(bs) == lo[0] + 0x100 * Value(bs[1..]);
    assert Value(bs[1..]) == lo[1] + 0x100 * Value(bs[2..]);
    assert Value(bs[2..]) == lo[2] + 0x100 * Value(bs[3..]);
    assert Value(bs[3..]) == lo[3] + 0x100 * Value(hi);
  }

  function PadLength(len: nat): (n: nat)
    ensures 1 <= n <= 64 && (len + n) % 64 == 56
  {
    (55 - len) % 64 + 1
  }

  function Padding(len: nat): (pad: seq<Byte>)
    ensures |pad| == PadLength(len)
  {
    [0x80] + Zeros(PadLength(len) - 1)
  }

  /** There is only one way to pad. */
  lemma PaddingIsUnique(len: nat, pad: seq<Byte>)
    ensures IsPadding(len, pad) <==> pad == Padding(len)
  {
    if IsPadding(len, pad) {
      assert |pad| == PadLength(len);
    }
  }

  function Padded(msg: seq<Byte>): seq<Byte> {
    msg + Padding(|msg|) + LengthField(8 * |msg|)
  }

  lemma EightMore(n: nat)
    requires n % 64 == 56
    ensures (n + 8) % 64 == 0
  {
  }

  lemma PaddedIsWholeBlocks(msg: seq<Byte>)
    ensures |Padded(msg)| % 64 == 0
  {
    hide PadLength, WordBytes;
    var n := |msg| + |Padding(|msg|)|;
    assert |Padded(msg)| == n + 8;
    EightMore(n);
  }

  /** Section 3.4: the blocks are processed one after the other. */
  function Process(f: Compression, r: Registers, blocks: seq<Byte>): Registers
    requires |blocks| % 64 == 0
    decreases |blocks|
  {
    if blocks == [] then r else Process(f, f(r, blocks[..64]), blocks[64..])
  }

  lemma {:induction false} ProcessAppend(f: Compression, r: Registers, xs: seq<Byte>, ys: seq<Byte>)
    requires |xs| % 64 == 0 && |ys| % 64 == 0
    ensures Process(f, r, xs + ys) == Process(f, Process(f, r, xs), ys)
    decreases |xs|
  {
    if xs == [] {
      assert xs + ys == ys;
    } else {
      assert (xs + ys)[..64] == xs[..64] && (xs + ys)[64..] == xs[64..] + ys;
      ProcessAppend(f, f(r, xs[..64]), xs[64..], ys);
    }
  }

  lemma ProcessBlock(f: Compression, r: Registers, block: seq<Byte>)
    requires |block| == 64
    ensures Process(f, r, block) == f(r, block)
  {
    assert block[..64] == block && block[64..] == [];
  }

  /** Section 3.5. */
  function Output(r: Registers): (digest: seq<Byte>)
    ensures |digest| == 16
  {
    WordBytes(r.a) + WordBytes(r.b) + WordBytes(r.c) + WordBytes(r.d)
  }

  function Digest(f: Compression, msg: seq<Byte>): seq<Byte> {
    PaddedIsWholeBlocks(msg);
    Output(Process(f, INITIAL, Padded(msg)))
  }

  // ----- the program

  const BITS: int := 0x1_0000_0000_0000_0000

  /** The whole blocks of a message, and the rest. */
  function Rest(msg: seq<Byte>): nat {
    |msg| % 64
  }

  function Blocks(msg: seq<Byte>): (bs: seq<Byte>)
    ensures |bs| % 64 == 0
  {
    msg[..|msg| - Rest(msg)]
  }

  function Tail(msg: seq<Byte>): (t: seq<Byte>)
    ensures |t| == Rest(msg) < 64
  {
    msg[|msg| - Rest(msg)..]
  }

  /** Completing a block moves it to the processed part. */
  lemma BlockCompleted(f: Compression, r: Registers, msg: seq<Byte>, more: seq<Byte>)
    requires Rest(msg) + |more| == 64
    ensures Rest(msg + more) == 0 && |Tail(msg) + more| == 64
    ensures Process(f, r, Blocks(msg + more)) == f(Process(f, r, Blocks(msg)), Tail(msg) + more)
  {
    assert |msg + more| % 64 == 0;
    assert msg == Blocks(msg) + Tail(msg);
    assert Blocks(msg + more) == Blocks(msg) + (Tail(msg) + more);
    ProcessAppend(f, r, Blocks(msg), Tail(msg) + more);
    ProcessBlock(f, Process(f, r, Blocks(msg)), Tail(msg) + more);
  }

  lemma BlockContinued(msg: seq<Byte>, more: seq<Byte>)
    requires Rest(msg) + |more| < 64
    ensures Rest(msg + more) == Rest(msg) + |more|
    ensures Blocks(msg + more) == Blocks(msg) && Tail(msg + more) == Tail(msg) + more
  {
    RestOfSum(|msg|, |more|);
  }

  lemma RestOfSum(m: nat, n: nat)
    requires m % 64 + n < 64
    ensures (m + n) % 64 == m % 64 + n
  {
  }

  /** The two count words hold the number of bits, modulo 2^64. */
  predicate Counts(count0: Word, count1: Word, len: nat) {
    count0 + count1 * 0x1_0000_0000 == 8 * len % BITS
  }

  lemma OffsetIsRest(count0: Word, count1: Word, len: nat)
    requires Counts(count0, count1, len)
    ensures count0 / 8 % 64 == len % 64
    ensures (55 - count0 / 8) % 64 == (55 - len) % 64
  {
    var q := 8 * len / BITS;
    assert 8 * len == q * BITS + count0 + count1 * 0x1_0000_0000;
    assert count0 == 8 * (len - q * 0x2000_0000_0000_0000 - count1 * 0x2000_0000);
    assert count0 / 8 == len - 64 * (q * 0x80_0000_0000_0000 + count1 * 0x80_0000);
    SameRemainder(count0 / 8, len, q * 0x80_0000_0000_0000 + count1 * 0x80_0000);
  }

  lemma SameRemainder(x: int, y: int, k: int)
    requires x == y - 64 * k
    ensures x % 64 == y % 64
    ensures (55 - x) % 64 == (55 - y) % 64
  {
  }

  lemma CountBytes(count0: Word, count1: Word, len: nat, n: nat)
    requires Counts(count0, count1, len) && n < 0x1000_0000
    ensures var lo := (count0 + 8 * n) % 0x1_0000_0000;
            var carry := if lo < 8 * n then 1 else 0;
            Counts(lo, (count1 + carry) % 0x1_0000_0000, len + n)
  {
    var q := 8 * len / BITS;
    var v := count0 + count1 * 0x1_0000_0000 + 8 * n;
    assert 8 * (len + n) == q * BITS + v;
    Remainder(8 * (len + n), q, v);
  }

  lemma Remainder(x: int, q: int, v: int)
    requires x == q * BITS + v && 0 <= v < 2 * BITS
    ensures x % BITS == if v < BITS then v else v - BITS
  {
  }

  class Md5 {
    const process: Compression
    var count0: Word
    var count1: Word
    var abcd: Registers
    const buf: array<Byte>

    ghost var msg: seq<Byte>   // everything appended so far

    /** The registers cover the whole blocks of `m`, and the buffer holds the rest. */
    ghost predicate Holds(m: seq<Byte>)
      reads this`abcd, buf
    {
      && buf.Length == 64
      && abcd == Process(process, INITIAL, Blocks(m))
      && buf[..Rest(m)] == Tail(m)
    }

    ghost predicate Valid()
      reads this, buf
    {
      Counts(count0, count1, |msg|) && Holds(msg)
    }

    constructor (process: Compression)
      ensures Valid() && msg == [] && fresh(buf) && this.process == process
    {
      this.process := process;
      count0, count1 := 0, 0;
      abcd := INITIAL;
      buf := new Byte[64](_ => 0);
      msg := [];
    }

    /** `md5_append`.  The number of bits must fit an `int`. */
    method Append(data: seq<Byte>)
      requires Valid() && |data| < 0x1000_0000
      modifies `count0, `count1, `abcd, `msg, buf
      ensures Valid() && msg == old(msg) + data
    {
      hide Process, Blocks, Tail, Counts, Rest;
      var nbytes := |data|;
      OffsetIsRest(count0, count1, |msg|);
      RestIs(msg);
      var offset := count0 / 8 % 64;
      if nbytes <= 0 {
        assert msg + data == msg;
        return;
      }
      Count(nbytes);
      var p := 0;
      if offset != 0 {
        var copy := if offset + nbytes > 64 then 64 - offset else nbytes;
        CopyIn(offset, data[..copy]);
        if offset + copy < 64 {
          assert data[..copy] == data;
          BlockContinued(msg, data);
          msg := msg + data;
          return;
        }
        BlockCompleted(process, INITIAL, msg, data[..copy]);
        assert buf[..64] == buf[..];
        abcd := process(abcd, buf[..]);
        p := copy;
      } else {
        assert msg + data[..0] == msg;
      }
      p := ProcessFullBlocks(data, p);
      ghost var more := data[p..];
      BlockContinued(msg + data[..p], more);
      assert msg + data[..p] + more == msg + data;
      if p < nbytes {
        CopyIn(0, data[p..]);
      }
      msg := msg + data;
    }

    /** Add to the message length. */
    method Count(nbytes: nat)
      requires Counts(count0, count1, |msg|) && nbytes < 0x1000_0000
      modifies `count0, `count1
      ensures Counts(count0, count1, |msg| + nbytes)
    {
      hide Counts;
      CountBytes(count0, count1, |msg|, nbytes);
      count0 := (count0 + 8 * nbytes) % 0x1_0000_0000;
      if count0 < 8 * nbytes {
        count1 := (count1 + 1) % 0x1_0000_0000;
      }
    }

    /** The loop of `md5_append`. */
    method ProcessFullBlocks(data: seq<Byte>, start: nat) returns (p: nat)
      requires start <= |data| && Rest(msg + data[..start]) == 0 && Holds(msg + data[..start])
      modifies `abcd
      ensures start <= p <= |data| && |data| - p < 64 && Rest(msg + data[..p]) == 0 && Holds(msg + data[..p])
    {
      hide Process, Blocks, Rest;
      p := start;
      while |data| - p >= 64
        invariant start <= p <= |data| && Rest(msg + data[..p]) == 0 && Holds(msg + data[..p])
      {
        var block := data[p..p + 64];
        BlockCompleted(process, INITIAL, msg + data[..p], block);
        assert Tail(msg + data[..p]) + block == block;
        assert msg + data[..p] + block == msg + data[..p + 64];
        abcd := process(abcd, block);
        p := p + 64;
      }
    }

    method CopyIn(offset: nat, bytes: seq<Byte>)
      requires offset + |bytes| <= 64 == buf.Length
      modifies buf
      ensures buf[..offset + |bytes|] == old(buf[..offset]) + bytes
    {
      forall k | 0 <= k < |bytes| {
        buf[offset + k] := bytes[k];
      }
    }

    /** `md5_finish` */
    method Finish() returns (digest: seq<Byte>)
      requires Valid()
      modifies `count0, `count1, `abcd, `msg, buf
      ensures digest == Digest(process, old(msg))
    {
      hide Process, Counts, Padding, LengthField, WordBytes, Blocks;
      ghost var m := msg;
      OffsetIsRest(count0, count1, |m|);
      LengthFieldIs(count0, count1, |m|);
      var data := WordBytes(count0) + WordBytes(count1);
      var pad := [0x80] + Zeros((55 - count0 / 8) % 64);
      PaddingIs(|m|, pad);
      Append(pad);
      Append(data);
      assert msg == Padded(m);
      PaddedIsWholeBlocks(m);
      NothingLeft(msg);
      digest := WordBytes(abcd.a) + WordBytes(abcd.b) + WordBytes(abcd.c) + WordBytes(abcd.d);
    }
  }

  lemma RestIs(m: seq<Byte>)
    ensures Rest(m) == |m| % 64
  {
  }

  lemma PaddingIs(len: nat, pad: seq<Byte>)
    requires pad == [0x80] + Zeros((55 - len) % 64)
    ensures pad == Padding(len)
  {
  }

  lemma LengthFieldIs(count0: Word, count1: Word, len: nat)
    requires Counts(count0, count1, len)
    ensures WordBytes(count0) + WordBytes(count1) == LengthField(8 * len)
  {
    hide WordBytes;
    var bits := 8 * len;
    var q := bits / BITS;
    assert bits == q * BITS + count0 + count1 * 0x1_0000_0000;
    var high := q * 0x1_0000_0000 + count1;
    Split(bits, high, count0);
    Split(high, q, count1);
  }

  lemma Split(x: int, high: int, low: Word)
    requires x == high * 0x1_0000_0000 + low
    ensures x / 0x1_0000_0000 == high && x % 0x1_0000_0000 == low
  {
  }

  lemma NothingLeft(m: seq<Byte>)
    requires |m| % 64 == 0
    ensures Blocks(m) == m
  {
  }

  function Concat(chunks: seq<seq<Byte>>): seq<Byte> {
    if chunks == [] then [] else Concat(chunks[..|chunks| - 1]) + chunks[|chunks| - 1]
  }

  /** However a message is cut into pieces, the digest is that of the whole. */
  method Sum(process: Compression, chunks: seq<seq<Byte>>) returns (digest: seq<Byte>)
    requires forall i :: 0 <= i < |chunks| ==> |chunks[i]| < 0x1000_0000
    ensures digest == Digest(process, Concat(chunks))
  {
    hide Digest;
    var md5 := new Md5(process);
    for i := 0 to |chunks|
      invariant md5.Valid() && md5.process == process && md5.msg == Concat(chunks[..i])
      invariant fresh(md5) && fresh(md5.buf)
    {
      assert chunks[..i + 1][..i] == chunks[..i];
      md5.Append(chunks[i]);
    }
    assert chunks[..|chunks|] == chunks;
    digest := md5.Finish();
  }
}
