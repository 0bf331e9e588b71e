/** The wrapping sequence-number arithmetic of `CSeqNo` (udt4/src/common.h:219-254).

    A packet has an unbounded number `x` that never occurs in the program; what travels in a
    header or sits in a list is its residue `Wire(x)` modulo 2^31.  The lemmas say when the
    functions on residues agree with the integers. */
module SeqNo {

  const MAX_SEQ_NO: int := 0x7FFF_FFFF
  const SEQ_NO_TH: int := 0x3FFF_FFFF
  const SEQ_SPACE: int := 0x8000_0000

  function Abs(x: int): int {
    if x < 0 then -x else x
  }

  function Cmp(a: int, b: int): int {
    if Abs(a - b) < SEQ_NO_TH then a - b else b - a
  }

  function Len(a: int, b: int): int {
    if a <= b then b - a + 1 else b - a + MAX_SEQ_NO + 2
  }

  function Off(a: int, b: int): int {
    if Abs(a - b) < SEQ_NO_TH then b - a
    else if a < b then b - a - MAX_SEQ_NO - 1
    else b - a + MAX_SEQ_NO + 1
  }

  function Inc(a: int): int {
    if a == MAX_SEQ_NO then 0 else a + 1
  }

  function Dec(a: int): int {
    if a == 0 then MAX_SEQ_NO else a - 1
  }

  function IncBy(a: int, inc: int): int {
    if MAX_SEQ_NO - a >= inc then a + inc else a - MAX_SEQ_NO + inc - 1
  }

  /** What the program stores for the number `x`. */
  function Wire(x: int): (w: int)
    ensures 0 <= w <= MAX_SEQ_NO
  {
    x % SEQ_SPACE
  }

  /** The "current" numbers start one below the initial sequence number without wrapping
      (`m_iSndCurrSeqNo = m_iISN - 1`), so the number -1 is stored as -1. */
  function CurrWire(x: int): (w: int)
    ensures -1 <= w <= MAX_SEQ_NO
  {
    if x == -1 then -1 else Wire(x)
  }

  lemma CurrWireIsWire(x: int)
    requires x >= 0
    ensures CurrWire(x) == Wire(x)
  {
  }

  /** Two numbers are near when they are closer than the comparison threshold. */
  predicate Near(x: int, y: int) {
    Abs(x - y) < SEQ_NO_TH
  }

  predicate SameSign(c: int, d: int) {
    (c < 0 <==> d < 0) && (c == 0 <==> d == 0)
  }

  /** The residues of two numbers less than a whole space apart differ by the numbers' distance,
      give or take one space. */
  lemma WireDistance(x: int, y: int)
    requires -SEQ_SPACE < y - x < SEQ_SPACE
    ensures Wire(y) - Wire(x) in {y - x - SEQ_SPACE, y - x, y - x + SEQ_SPACE}
  {
    assert x == SEQ_SPACE * (x / SEQ_SPACE) + Wire(x);
    assert y == SEQ_SPACE * (y / SEQ_SPACE) + Wire(y);
  }

  /** On near numbers the residues compare as the numbers do. */
  lemma CmpIsOrder(x: int, y: int)
    requires Near(x, y)
    ensures SameSign(Cmp(Wire(x), Wire(y)), x - y)
  {
    WireDistance(x, y);
  }

  /** On near numbers the offset of the residues is the signed distance. */
  lemma OffIsDistance(x: int, y: int)
    requires Near(x, y)
    ensures Off(Wire(x), Wire(y)) == y - x
  {
    WireDistance(x, y);
  }

  /** The length of a wire range is the number of packets in it, for any range that does not
      fill the whole sequence space. */
  lemma LenIsCount(x: int, y: int)
    requires x <= y < x + SEQ_SPACE
    ensures Len(Wire(x), Wire(y)) == y - x + 1
  {
    WireDistance(x, y);
  }

  lemma IncIsSuccessor(x: int)
    ensures Inc(Wire(x)) == Wire(x + 1)
    ensures x >= -1 ==> Inc(CurrWire(x)) == Wire(x + 1)
  {
  }

  lemma DecIsPredecessor(x: int)
    ensures Dec(Wire(x)) == Wire(x - 1)
  {
  }

  lemma IncByIsSum(x: int, inc: int)
    requires 0 <= inc < SEQ_SPACE
    ensures IncBy(Wire(x), inc) == Wire(x + inc)
  {
  }

  /** Residues identify near numbers. */
  lemma WireInjective(x: int, y: int)
    requires -SEQ_SPACE < x - y < SEQ_SPACE
    ensures Wire(x) == Wire(y) <==> x == y
  {
  }

  /** The comparisons that involve a "current" number, which may be the unwrapped -1. */
  lemma CurrIsOrder(x: int, y: int)
    requires x >= -1 && y >= 0 && Near(x, y)
    ensures SameSign(Cmp(Wire(y), CurrWire(x)), y - x)
    ensures x <= y ==> Len(CurrWire(x), Wire(y)) == y - x + 1
  {
  }

  predicate IsInt32(x: int) {
    -0x8000_0000 <= x <= MAX_SEQ_NO
  }

  /** On sequence numbers nothing overflows the 32 bits of an `int`, with one exception: the length of
      the whole sequence space, from a number round to the one before it, does not fit. */
  lemma StaysInInt32(a: int, b: int, inc: int)
    requires 0 <= a <= MAX_SEQ_NO && 0 <= b <= MAX_SEQ_NO && 0 <= inc <= MAX_SEQ_NO
    ensures IsInt32(a - b) && IsInt32(Cmp(a, b)) && IsInt32(Off(a, b))
    ensures 0 <= Inc(a) <= MAX_SEQ_NO && 0 <= Dec(a) <= MAX_SEQ_NO && 0 <= IncBy(a, inc) <= MAX_SEQ_NO
    ensures IsInt32(Len(a, b)) <==> a != Inc(b)
  {
  }

  /** A position at which a distance of at least the threshold is compared the wrong way round
      and measured wrongly. */
  lemma FarIsWrong(d: int) returns (x: int)
    requires SEQ_NO_TH <= Abs(d) < SEQ_SPACE
    ensures !SameSign(Cmp(Wire(x + d), Wire(x)), d)
    ensures Off(Wire(x), Wire(x + d)) != d
  {
    x := if d > 0 then 0 else -d;
    assert Wire(x) == x && Wire(x + d) == x + d;
  }

  ghost predicate ComparedRight(x: int, d: int) {
    SameSign(Cmp(Wire(x + d), Wire(x)), d)
  }

  ghost predicate MeasuredRight(x: int, d: int) {
    Off(Wire(x), Wire(x + d)) == d
  }

  /** The threshold is exact: a distance is compared correctly at every position of the
      sequence space if and only if it is below `SEQ_NO_TH`, and the same holds of offsets. */
  lemma ThresholdIsExact(d: int)
    requires -SEQ_SPACE < d < SEQ_SPACE
    ensures (forall x :: ComparedRight(x, d)) <==> Abs(d) < SEQ_NO_TH
    ensures (forall x :: MeasuredRight(x, d)) <==> Abs(d) < SEQ_NO_TH
  {
    if Abs(d) < SEQ_NO_TH {
      forall x ensures ComparedRight(x, d) && MeasuredRight(x, d) {
        CmpIsOrder(x + d, x);
        OffIsDistance(x, x + d);
      }
    } else {
      var x := FarIsWrong(d);
      assert !ComparedRight(x, d) && !MeasuredRight(x, d);
    }
  }
}
