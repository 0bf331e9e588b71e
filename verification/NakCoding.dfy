/** The coding of a loss report into 32-bit words (udt4/src/packet.cpp:137-143): a range of more
    than one number is its first number with the top bit set, then its last number; a single
    number is itself.

    A word is the signed value of the `int32_t` it is kept in, so setting the top bit of a
    sequence number subtracts 2^31 and a word is flagged when it is negative. */
module NakCoding {
  import opened SeqNo
  import opened SenderSpec
  import opened Ranges

  const FLAG: int := 0x8000_0000

  predicate Flagged(word: int) {
    word < 0
  }

  function SetFlag(seqno: int): int {
    seqno - FLAG
  }

  function ClearFlag(word: int): int {
    word + FLAG
  }

  /** On the bits of a word: setting the top bit is undone by masking it, and the top bit of a
      sequence number is free. */
  lemma FlagIsTopBit(seqno: bv32)
    requires seqno <= 0x7FFF_FFFF
    ensures (seqno | 0x8000_0000) & 0x8000_0000 != 0
    ensures (seqno | 0x8000_0000) & 0x7FFF_FFFF == seqno
    ensures seqno & 0x8000_0000 == 0
  {
  }

  function WordsOf(item: LossItem): seq<int> {
    match item
    case Single(n) => [Wire(n)]
    case Pair(a, b) => [SetFlag(Wire(a)), Wire(b)]
  }

  function Encode(items: seq<LossItem>): seq<int> {
    if items == [] then [] else WordsOf(items[0]) + Encode(items[1..])
  }

  /** The sender's reading of a report, on wire numbers; a report that ends inside a pair has none. */
  function Decode(words: seq<int>): Option<seq<LossItem>> {
    if words == [] then Some([])
    else if !Flagged(words[0]) then Prepend(Single(words[0]), Decode(words[1..]))
    else if |words| == 1 then None
    else Prepend(Pair(ClearFlag(words[0]), words[1]), Decode(words[2..]))
  }

  function Prepend(item: LossItem, rest: Option<seq<LossItem>>): Option<seq<LossItem>> {
    if rest.Some? then Some([item] + rest.value) else None
  }

  function OnWire(item: LossItem): LossItem {
    match item
    case Single(n) => Single(Wire(n))
    case Pair(a, b) => Pair(Wire(a), Wire(b))
  }

  function AllOnWire(items: seq<LossItem>): seq<LossItem> {
    seq(|items|, i requires 0 <= i < |items| => OnWire(items[i]))
  }

  /** Reading a report gives back the items it was made of. */
  lemma {:induction false} DecodeEncode(items: seq<LossItem>)
    ensures Decode(Encode(items)) == Some(AllOnWire(items))
    decreases |items|
  {
    if items == [] {
      assert AllOnWire(items) == [];
    } else {
      var rest := Encode(items[1..]);
      DecodeEncode(items[1..]);
      var words := Encode(items);
      assert AllOnWire(items) == [OnWire(items[0])] + AllOnWire(items[1..]);
      match items[0] {
        case Single(n) =>
          assert words[1..] == rest;
        case Pair(a, b) =>
          assert words[2..] == rest;
      }
    }
  }

  lemma {:induction false} EncodeAppend(items: seq<LossItem>, item: LossItem)
    ensures Encode(items + [item]) == Encode(items) + WordsOf(item)
    decreases |items|
  {
    if items == [] {
      assert items + [item] == [item];
      assert Encode([item]) == WordsOf(item) + Encode([]);
    } else {
      EncodeAppend(items[1..], item);
      assert (items + [item])[1..] == items[1..] + [item];
    }
  }

  /** The entry a list node is reported as. */
  function ItemOf(r: Range): LossItem {
    if r.lo == r.hi then Single(r.lo) else Pair(r.lo, r.hi)
  }

  function ItemsOf(rs: seq<Range>): seq<LossItem> {
    seq(|rs|, i requires 0 <= i < |rs| => ItemOf(rs[i]))
  }

  /** The numbers a report speaks of. */
  function Reported(items: seq<LossItem>): set<int> {
    if items == [] then {} else Reported(items[..|items| - 1]) + ReportedBy(items[|items| - 1])
  }

  function ReportedBy(item: LossItem): set<int> {
    match item
    case Single(n) => {n}
    case Pair(a, b) => Interval(a, b)
  }

  lemma {:induction false} ReportedFirst(items: seq<LossItem>)
    requires items != []
    ensures Reported(items) == ReportedBy(items[0]) + Reported(items[1..])
    decreases |items|
  {
    var n := |items| - 1;
    if n > 0 {
      ReportedFirst(items[..n]);
      assert items[..n][1..] == items[1..][..n - 1];
    }
  }

  /** A report of some nodes speaks of exactly the numbers in them. */
  lemma {:induction false} ReportedIsElems(rs: seq<Range>)
    ensures Reported(ItemsOf(rs)) == Elems(rs)
  {
    if rs != [] {
      var n := |rs| - 1;
      ReportedIsElems(rs[..n]);
      assert ItemsOf(rs)[..n] == ItemsOf(rs[..n]);
      assert ItemsOf(rs)[n] == ItemOf(rs[n]);
      assert ReportedBy(ItemOf(rs[n])) == Interval(rs[n].lo, rs[n].hi);
    }
  }

  lemma ItemsOfNext(rs: seq<Range>, j: nat)
    requires j < |rs|
    ensures Encode(ItemsOf(rs[..j + 1])) == Encode(ItemsOf(rs[..j])) + WordsOf(ItemOf(rs[j]))
  {
    EncodeAppend(ItemsOf(rs[..j]), ItemOf(rs[j]));
    assert ItemsOf(rs[..j + 1]) == ItemsOf(rs[..j]) + [ItemOf(rs[j])];
  }
}
