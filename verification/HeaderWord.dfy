/** The second word of a data packet's header: two boundary bits, the order bit and 29 bits of
    message number (udt4/src/packet.cpp:56-74 and 328-344, udt4/src/buffer.cpp:131-151). */
module HeaderWord {
  import opened Packets

  function Assemble(no: bv32, inOrder: bool, first: bool, last: bool): bv32 {
    no | (if inOrder then 0x2000_0000 else 0) | (if first then 0x8000_0000 else 0) | (if last then 0x4000_0000 else 0)
  }

  function Boundary(word: bv32): bv32 {
    word >> 30
  }

  predicate OrderFlag(word: bv32) {
    (word >> 29) & 1 == 1
  }

  function MsgSeq(word: bv32): bv32 {
    word & 0x1FFF_FFFF
  }

  /** The word `addBuffer` writes into a send block. */
  function Encode(h: Header): bv32 {
    Assemble(h.no, h.inOrder, h.first, h.last)
  }

  /** What the receive buffer reads out of a word: a boundary above 1 starts a message, a boundary
      of 1 or 3 ends one. */
  function Decode(word: bv32): Header {
    Header(Boundary(word) > 1, Boundary(word) == 1 || Boundary(word) == 3, OrderFlag(word), MsgSeq(word))
  }

  lemma FieldsAreDisjoint(no: bv32, inOrder: bool, first: bool, last: bool)
    requires no <= MAX_MSG_NO
    ensures var word := Assemble(no, inOrder, first, last);
            && MsgSeq(word) == no
            && OrderFlag(word) == inOrder
            && (Boundary(word) > 1) == first
            && (Boundary(word) == 1 || Boundary(word) == 3) == last
  {
  }

  lemma BitsOf(w: bv32)
    ensures w & 0x1FFF_FFFF <= MAX_MSG_NO
    ensures w & 0x2000_0000 == (if (w >> 29) & 1 == 1 then 0x2000_0000 else 0)
    ensures w & 0x8000_0000 == (if w >> 30 > 1 then 0x8000_0000 else 0)
    ensures w & 0x4000_0000 == (if w >> 30 == 1 || w >> 30 == 3 then 0x4000_0000 else 0)
    ensures w == (w & 0x1FFF_FFFF) | (w & 0x2000_0000) | (w & 0x8000_0000) | (w & 0x4000_0000)
  {
  }

  lemma AssembleParts(word: bv32, no: bv32, o: bool, f: bool, l: bool)
    requires word == no | (word & 0x2000_0000) | (word & 0x8000_0000) | (word & 0x4000_0000)
    requires word & 0x2000_0000 == (if o then 0x2000_0000 else 0)
    requires word & 0x8000_0000 == (if f then 0x8000_0000 else 0)
    requires word & 0x4000_0000 == (if l then 0x4000_0000 else 0)
    ensures Assemble(no, o, f, l) == word
  {
  }

  /** Reading a written word gives the fields back. */
  lemma DecodeEncode(h: Header)
    requires h.no <= MAX_MSG_NO
    ensures Decode(Encode(h)) == h
  {
    hide Assemble, MsgSeq, OrderFlag, Boundary;
    FieldsAreDisjoint(h.no, h.inOrder, h.first, h.last);
    var word := Encode(h);
    assert MsgSeq(word) == h.no;
    assert OrderFlag(word) == h.inOrder;
    assert Decode(word) == Header(h.first, h.last, h.inOrder, h.no);
  }

  /** Every 32-bit word is the writing of its fields: nothing in a word is lost. */
  lemma EncodeDecode(word: bv32)
    ensures Decode(word).no <= MAX_MSG_NO
    ensures Encode(Decode(word)) == word
  {
    hide Assemble;
    BitsOf(word);
    AssembleParts(word, MsgSeq(word), OrderFlag(word), Boundary(word) > 1, Boundary(word) == 1 || Boundary(word) == 3);
  }

  function NextMsgNo(no: bv32): bv32 {
    if no + 1 == MAX_MSG_NO then 1 else no + 1
  }
}
