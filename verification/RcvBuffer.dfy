/** The receive buffer (udt4/src/buffer.cpp:346-652): a ring of slots for packets.  `startPos` is
    where the user reads, `lastAckPos` is one past the last acknowledged packet; packets that
    arrived early lie beyond it. */
module RcvBuffers {
  import opened Ring
  import opened Packets
  import opened SenderSpec
  import opened ReceiverSpec

  /** A packet and its state: 0 free, 1 stored, 2 read but not yet released. */
  class Unit {
    var flag: int
    var frag: Frag

    constructor (f: Frag)
      ensures flag == 0 && frag == f
    {
      flag := 0;
      frag := f;
    }
  }

  // ----- the ring as a value

  datatype Cell = Vacant | Occupied(frag: Frag, taken: bool)

  function CellOf(stored: map<int, Frag>, taken: set<int>, n: int): Cell {
    if n in stored then Occupied(stored[n], n in taken) else Vacant
  }

  /** The slots hold the packets from number `base`, which is at position `start`, onwards. */
  predicate Holds(view: seq<Cell>, size: int, start: int, base: int, stored: map<int, Frag>, taken: set<int>) {
    && 0 <= start < size == |view|
    && forall d :: 0 <= d < size ==> view[Step(start, d, size)] == CellOf(stored, taken, base + d)
  }

  predicate Bounded(stored: map<int, Frag>, limit: int) {
    forall n :: n in stored ==> n < limit
  }

  /** The slots and positions of a receive buffer, and the numbers they stand for: packet `base` belongs at
      `start`, packet `acked` at `ackPos`. */
  datatype Layout = Layout(
    cells: seq<Cell>, size: int, start: int, ackPos: int, maxPos: int,
    base: int, acked: int, stored: map<int, Frag>, taken: set<int>)

  /** They fit together. */
  predicate RingOk(g: Layout) {
    && 0 < g.size && 0 <= g.start < g.size
    && Holds(g.cells, g.size, g.start, g.base, g.stored, g.taken)
    && g.base <= g.acked < g.base + g.size && g.ackPos == Step(g.start, g.acked - g.base, g.size)
    && Bounded(g.stored, g.base + g.size - 1)
    && 0 <= g.maxPos && g.acked + g.maxPos < g.base + g.size && Bounded(g.stored, g.acked + g.maxPos + 1)
    && (g.maxPos > 0 ==> g.acked + g.maxPos in g.stored)
    && (forall n :: n in g.taken ==> g.base <= n && n in g.stored)
  }

  lemma HoldsSizes(g: Layout)
    requires RingOk(g)
    ensures |g.cells| == g.size
  {
  }

  lemma SlotAt(view: seq<Cell>, size: int, start: int, base: int, stored: map<int, Frag>, taken: set<int>, d: int)
    requires Holds(view, size, start, base, stored, taken) && 0 <= d < size
    ensures 0 <= Step(start, d, size) < size && view[Step(start, d, size)] == CellOf(stored, taken, base + d)
  {
  }

  lemma StepInjective(start: int, d: int, e: int, size: int)
    requires 0 <= start < size && 0 <= d < size && 0 <= e < size
    ensures Step(start, d, size) == Step(start, e, size) <==> d == e
  {
  }

  /** Putting a packet into its slot. */
  lemma HoldsAfterStore(view: seq<Cell>, size: int, start: int, base: int, stored: map<int, Frag>, taken: set<int>,
                        n: int, f: Frag)
    requires Holds(view, size, start, base, stored, taken) && base <= n < base + size && n !in taken
    ensures 0 <= Step(start, n - base, size) < |view|
    ensures Holds(view[Step(start, n - base, size) := Occupied(f, false)], size, start, base, stored[n := f], taken)
  {
    var p := Step(start, n - base, size);
    var view', stored' := view[p := Occupied(f, false)], stored[n := f];
    forall d | 0 <= d < size ensures view'[Step(start, d, size)] == CellOf(stored', taken, base + d) {
      SlotAt(view, size, start, base, stored, taken, d);
      StepInjective(start, d, n - base, size);
    }
  }

  /** Releasing the slot at the front moves the front. */
  lemma HoldsAfterRelease(view: seq<Cell>, size: int, start: int, base: int, stored: map<int, Frag>, taken: set<int>)
    requires Holds(view, size, start, base, stored, taken) && Bounded(stored, base + size)
    ensures 0 <= Step(start, 1, size) < size || size == 1
    ensures var start' := if start + 1 == size then 0 else start + 1;
            Holds(view[start := Vacant], size, start', base + 1, stored, taken - {base})
  {
    var start' := if start + 1 == size then 0 else start + 1;
    var view' := view[start := Vacant];
    forall d | 0 <= d < size ensures view'[Step(start', d, size)] == CellOf(stored, taken - {base}, base + 1 + d) {
      if d + 1 < size {
        SlotAt(view, size, start, base, stored, taken, d + 1);
      }
    }
  }

  /** Marking a packet as read. */
  lemma HoldsAfterMark(view: seq<Cell>, size: int, start: int, base: int, stored: map<int, Frag>, taken: set<int>,
                       n: int)
    requires Holds(view, size, start, base, stored, taken) && base <= n < base + size && n in stored
    ensures 0 <= Step(start, n - base, size) < |view|
    ensures var p := Step(start, n - base, size);
            Holds(view[p := Occupied(stored[n], true)], size, start, base, stored, taken + {n})
  {
    var p := Step(start, n - base, size);
    var view' := view[p := Occupied(stored[n], true)];
    forall d | 0 <= d < size ensures view'[Step(start, d, size)] == CellOf(stored, taken + {n}, base + d) {
      SlotAt(view, size, start, base, stored, taken, d);
      StepInjective(start, d, n - base, size);
    }
  }

  /** A packet `offset` places beyond the acknowledged part is accepted unless it has been before. */
  lemma RingAfterStore(g: Layout, offset: int, f: Frag)
    requires RingOk(g) && 0 <= offset < g.size - (g.acked - g.base) - 1
    ensures var (n, pos) := (g.acked + offset, Step(g.ackPos, offset, g.size));
            var g1 := g.(maxPos := if offset > g.maxPos then offset else g.maxPos);
            && offset < g.size && 0 <= g.ackPos < g.size && 0 <= pos < g.size == |g.cells|
            && (g.cells[pos] == Vacant <==> n !in g.stored)
            && (n in g.stored ==> RingOk(g1))
            && (n !in g.stored ==> RingOk(g1.(cells := g.cells[pos := Occupied(f, false)], stored := g.stored[n := f])))
  {
    hide Holds;
    HoldsSizes(g);
    var n := g.acked + offset;
    SlotAt(g.cells, g.size, g.start, g.base, g.stored, g.taken, n - g.base);
    StepTwice(g.start, g.acked - g.base, offset, g.size);
    if n !in g.stored {
      HoldsAfterStore(g.cells, g.size, g.start, g.base, g.stored, g.taken, n, f);
    }
  }

  lemma RingAfterAck(g: Layout, len: int)
    requires RingOk(g) && 0 <= len && g.acked + len < g.base + g.size
    ensures 0 <= g.ackPos < g.size && len < g.size
    ensures RingOk(g.(ackPos := Step(g.ackPos, len, g.size), acked := g.acked + len,
                      maxPos := if g.maxPos - len < 0 then 0 else g.maxPos - len))
  {
    hide Holds;
    StepTwice(g.start, g.acked - g.base, len, g.size);
  }

  function UnitsOf(us: seq<Unit?>): set<Unit> {
    set u: Unit | u in us
  }

  lemma UnitSetAfterPut(us: seq<Unit?>, pos: int, unit: Unit)
    requires 0 <= pos < |us| && us[pos] == null
    ensures UnitsOf(us[pos := unit]) == UnitsOf(us) + {unit}
  {
    var us' := us[pos := unit];
    assert us'[pos] == unit;
    forall u: Unit | u in us ensures u in us' {
      var i :| 0 <= i < |us| && us[i] == u;
      assert us'[i] == u;
    }
  }

  class RcvBuffer {
    const size: int
    const units: array<Unit?>
    var startPos: int
    var lastAckPos: int
    var maxPos: int
    var notch: nat

    ghost var stored: map<int, Frag>  // every packet ever accepted, by number
    ghost var taken: set<int>         // read out of order and not yet released
    ghost var base: int               // the number that belongs at `startPos`
    ghost var acked: int              // the number that belongs at `lastAckPos`

    ghost var cells: seq<Cell>        // what the slots contain

    ghost function Units(): set<Unit>
      reads units
    {
      UnitsOf(units[..])
    }

    /** The slots contain what `cells` says; a stored unit is not free and in one slot only. */
    ghost predicate Linked()
      reads this, units, Units()
    {
      && 0 < size && |cells| == units.Length == size
      && (forall i :: 0 <= i < size ==> (units[i] == null <==> cells[i] == Vacant))
      && (forall i :: 0 <= i < size && units[i] != null ==>
            && cells[i] == Occupied(units[i].frag, units[i].flag == 2)
            && (units[i].flag == 1 || units[i].flag == 2))
      && (forall i, j :: 0 <= i < j < size && units[i] != null ==> units[i] != units[j])
    }

    ghost predicate Window()
      reads this
    {
      RingOk(Now())
    }

    ghost function Now(): Layout
      reads this
    {
      Layout(cells, size, startPos, lastAckPos, maxPos, base, acked, stored, taken)
    }

    ghost predicate Valid()
      reads this, units, Units()
    {
      Linked() && Window()
    }

    constructor (n: int)
      requires 0 < n
      ensures Valid() && size == n && stored == map[] && taken == {} && base == 0 && acked == 0 && notch == 0
      ensures fresh(units) && Units() == {}
    {
      size := n;
      units := new Unit?[n](_ => null);
      cells := seq(n, _ => Vacant);
      startPos, lastAckPos, maxPos, notch := 0, 0, 0, 0;
      stored, taken, base, acked := map[], {}, 0, 0;
    }

    function GetRcvDataSize(): (n: int)
      requires Valid()
      reads this, units, Units()
      ensures n == acked - base
    {
      if lastAckPos >= startPos then lastAckPos - startPos else size + lastAckPos - startPos
    }

    function GetAvailBufSize(): (n: int)
      requires Valid()
      reads this, units, Units()
      ensures n == size - (acked - base) - 1
    {
      size - GetRcvDataSize() - 1
    }

    /** Store a packet `offset` places beyond the acknowledged part, unless its slot is occupied. */
    method AddData(unit: Unit, offset: int) returns (res: int)
      requires Valid() && unit.flag == 0 && 0 <= offset < GetAvailBufSize()
      modifies `maxPos, `stored, `cells, units, unit`flag
      ensures Valid()
      ensures old(acked) + offset in old(stored) ==> res == -1 && stored == old(stored) && Units() == old(Units())
      ensures old(acked) + offset !in old(stored) ==>
        res == 0 && stored == old(stored)[old(acked) + offset := unit.frag] && Units() == old(Units()) + {unit}
    {
      hide RingOk, Step, UnitsOf;
      RingAfterStore(Now(), offset, unit.frag);
      StepIsRemainder(lastAckPos, offset, size);
      var pos := (lastAckPos + offset) % size;
      if offset > maxPos {
        maxPos := offset;
      }
      if units[pos] != null {
        return -1;
      }
      Put(pos, unit);
      stored := stored[acked + offset := unit.frag];
      return 0;
    }

    method Put(pos: int, unit: Unit)
      requires Linked() && 0 <= pos < size && units[pos] == null && unit.flag == 0
      modifies `cells, units, unit`flag
      ensures Linked() && cells == old(cells)[pos := Occupied(unit.frag, false)]
      ensures Units() == old(Units()) + {unit}
    {
      FreeUnitNotStored(unit);
      UnitSetAfterPut(units[..], pos, unit);
      ghost var before := units[..];
      units[pos] := unit;
      unit.flag := 1;
      cells := cells[pos := Occupied(unit.frag, false)];
      assert units[..] == before[pos := unit];
    }

    lemma FreeUnitNotStored(unit: Unit)
      requires Linked() && unit.flag == 0
      ensures unit !in Units()
    {
    }

    method AckData(len: int)
      requires Valid() && 0 <= len && acked + len < base + size
      modifies `lastAckPos, `maxPos, `acked
      ensures Valid() && acked == old(acked) + len
    {
      hide RingOk, Step;
      RingAfterAck(Now(), len);
      StepIsRemainder(lastAckPos, len, size);
      lastAckPos := (lastAckPos + len) % size;
      maxPos := maxPos - len;
      if maxPos < 0 {
        maxPos := 0;
      }
      acked := acked + len;
    }

    /** Release the unit in slot `p`. */
    method Release(p: int)
      requires Linked() && 0 <= p < size && units[p] != null
      modifies `cells, units, Units()`flag
      ensures Linked() && cells == old(cells)[p := Vacant]
      ensures Units() == old(Units()) - {old(units[p])}
      ensures forall u :: u in Units() ==> u.flag == old(u.flag)
    {
      UnitSetAfterTake(units[..], p);
      ghost var before := units[..];
      var tmp := units[p];
      units[p] := null;
      tmp.flag := 0;
      cells := cells[p := Vacant];
      assert units[..] == before[p := null];
    }

    /** Copy up to `len` bytes of acknowledged data to the user, releasing what has been read. */
    method ReadBuffer(data: array<Byte>, len: nat) returns (n: nat)
      requires Valid() && len <= data.Length
      requires Readable(stored, base, acked, notch) && taken == {}
      modifies `startPos, `notch, `base, `cells, units, Units()`flag, data
      ensures Valid() && Units() <= old(Units())
      ensures var c := ReadFrom(stored, old(base), acked, old(notch), len);
              && base == c.pos && notch == c.notch && n <= len
              && n == |c.data| && data[..n] == c.data && data[n..] == old(data[n..])
    {
      hide RingOk, Step, ReadFrom, Readable, UnitsOf;
      var p, rs := startPos, len;
      ghost var result := ReadFrom(stored, base, acked, notch, len);
      ReadSoFarNothing(stored, base, acked, notch, len);
      while p != lastAckPos && rs > 0
        invariant 0 <= rs <= len && Units() <= old(Units()) && base <= acked
        invariant Reading(p, rs, data[..len - rs], result)
        invariant data[len - rs..] == old(data[len - rs..])
        decreases rs, acked - base
      {
        FrontOf(Now().(start := p));
        p, rs := ReadUnit(data, len - rs, p, rs, result);
      }
      FrontOf(Now().(start := p));
      ReadDone(stored, base, acked, notch, rs, data[..len - rs], result);
      startPos := p;
      return len - rs;
    }

    /** The buffer while a read is at position `p` and `rs` bytes are still wanted. */
    ghost predicate Reading(p: int, rs: nat, done: seq<Byte>, result: Cursor)
      reads this, units, Units()
    {
      && Linked() && taken == {}
      && RingOk(Now().(start := p))
      && Readable(stored, base, acked, notch)
      && ReadSoFar(stored, base, acked, notch, rs, done, result)
    }

    /** Copy from one unit, and release it if it is used up. */
    method ReadUnit(data: array<Byte>, at: nat, p0: int, rs0: nat, ghost result: Cursor) returns (p: int, rs: nat)
      requires at + rs0 <= data.Length && rs0 > 0 && base < acked && Reading(p0, rs0, data[..at], result)
      modifies `notch, `base, `cells, units, Units()`flag, data
      ensures rs <= rs0 && Units() <= old(Units()) && old(base) <= base <= acked
      ensures rs < rs0 || base > old(base)
      ensures Reading(p, rs, data[..at + rs0 - rs], result)
      ensures data[at + rs0 - rs..] == old(data[at + rs0 - rs..])
    {
      hide RingOk, Step, ReadFrom, Readable, ReadSoFar, UnitsOf;
      p, rs := p0, rs0;
      ghost var done := data[..at];
      FrontOf(Now().(start := p));
      ReadStep(stored, base, acked, notch, rs, done, result);
      ReleaseFront(Now().(start := p));
      var unitsize := |units[p].frag.data| - notch;
      if unitsize > rs {
        unitsize := rs;
      }
      ghost var d := stored[base].data;
      assert notch + unitsize == |d| ==> d[notch..notch + unitsize] == d[notch..];
      assert taken - {base} == taken;
      CopyInto(data, at, units[p].frag.data[notch..notch + unitsize]);
      if rs > unitsize || rs == |units[p].frag.data| - notch {
        Release(p);
        p := p + 1;
        if p == size {
          p := 0;
        }
        notch := 0;
        base := base + 1;
      } else {
        notch := notch + rs;
      }
      rs := rs - unitsize;
    }

    // ----- reading messages

    /** The buffer as the receiver's specification sees it. */
    ghost function AsRcv(): Rcv
      reads this
    {
      InitRcv(if size < 0 then 0 else size, false).(stored := stored, lastAck := acked, start := base, taken := taken)
    }

    /** Look ahead from the front for the rest of a message. */
    method LookAhead() returns (good: bool)
      requires Valid()
      ensures good == GoodFrom(stored, taken, base, acked)
    {
      hide RingOk, GoodFrom, UnitsOf;
      var i := startPos;
      ghost var n := base;
      FrontOf(Now());
      PositionOf(Now(), n);
      while i != lastAckPos
        invariant base <= n <= acked < base + size && i == Step(startPos, n - base, size) && 0 <= i < size
        invariant i == lastAckPos <==> n == acked
        invariant cells[i] == CellOf(stored, taken, n)
        invariant GoodFrom(stored, taken, base, acked) == GoodFrom(stored, taken, n, acked)
        decreases acked - n
      {
        GoodFromStep(stored, taken, n, acked);
        if units[i] == null || units[i].flag != 1 {
          return false;
        }
        if IsLast(units[i].frag) {
          break;
        }
        i := i + 1;
        if i == size {
          i := 0;
        }
        n := n + 1;
        PositionOf(Now(), n);
      }
      GoodFromStep(stored, taken, n, acked);
      return true;
    }

    /** Release what stands at the front and is not the beginning of a readable message. */
    method SkipBadFront()
      requires Valid()
      modifies `startPos, `base, `taken, `cells, units, Units()`flag
      ensures Valid() && Units() <= old(Units())
      ensures base == SkipBad(stored, old(taken), old(base), acked)
      ensures taken == set n | n in old(taken) && n >= base
      ensures base < acked ==> GoodFront(stored, taken, base, acked)
    {
      hide RingOk, SkipBad, GoodFrom, UnitsOf;
      TakenFromBase(Now());
      FrontOf(Now());
      while startPos != lastAckPos
        invariant Valid() && Units() <= old(Units())
        invariant 0 <= startPos < size && old(base) <= base <= acked && (startPos != lastAckPos <==> base < acked)
        invariant taken == set n | n in old(taken) && n >= base
        invariant SkipBad(stored, old(taken), old(base), acked) == SkipBad(stored, taken, base, acked)
        decreases acked - base
      {
        SkipBadStep(stored, taken, base, acked);
        var good := SkipUnlessGood();
        if good {
          break;
        }
      }
      SkipBadStep(stored, taken, base, acked);
    }

    /** Release the slot at the front unless a readable message begins there. */
    method SkipUnlessGood() returns (good: bool)
      requires Valid() && base < acked
      modifies `startPos, `base, `taken, `cells, units, Units()`flag
      ensures Valid() && Units() <= old(Units()) && 0 <= startPos < size && (startPos != lastAckPos <==> base < acked)
      ensures good == GoodFront(stored, old(taken), old(base), acked)
      ensures good ==> base == old(base) && taken == old(taken)
      ensures !good ==> base == old(base) + 1 && taken == old(taken) - {old(base)} && base <= acked
    {
      hide RingOk, GoodFrom, UnitsOf;
      FrontOf(Now());
      ReleaseFront(Now());
      if units[startPos] == null {
        assert cells[startPos := Vacant] == cells;
        Advance();
        return false;
      }
      if units[startPos].flag == 1 && IsFirst(units[startPos].frag) {
        good := LookAhead();
        if good {
          return;
        }
      }
      Release(startPos);
      Advance();
      return false;
    }

    /** Move the front one place on. */
    method Advance()
      requires Linked() && 0 <= startPos < size && base < acked
      requires RingOk(Passed(Now()))
      modifies `startPos, `base, `taken
      ensures Linked() && Window() && base == old(base) + 1 && taken == old(taken) - {old(base)}
      ensures 0 <= startPos < size && base <= acked && (startPos != lastAckPos <==> base < acked)
      ensures cells[startPos] == CellOf(stored, taken, base)
    {
      hide RingOk, UnitsOf;
      startPos := startPos + 1;
      if startPos == size {
        startPos := 0;
      }
      base, taken := base + 1, taken - {base};
      FrontOf(Now());
    }

    /** Look for the first message that may be read.  `genuine` tells it from the answer given when a
        message that cannot be read fills the whole buffer; `np` and `nq` are the packet numbers at the
        positions `p` and `q`. */
    method FindMessage()
      returns (found: bool, p: int, q: int, passack: bool, ghost genuine: bool, ghost np: int, ghost nq: int)
      requires Valid() && WellFramed(stored, base)
      ensures genuine ==> found && FirstDeliverable(AsRcv(), np, nq) && nq < base + size - 1 && passack == (nq >= acked)
      ensures genuine ==> p == Step(startPos, np - base, size) && q == Step(startPos, nq - base, size)
      ensures !genuine ==> (forall a, b :: !Deliverable(AsRcv(), a, b))
      ensures !genuine && found ==> passack && p == (q + 1) % size
      ensures found && !genuine <==> FillsBuffer(AsRcv())
    {
      hide RingOk, UnitsOf, Scanned, WellFramed, Deliverable, FirstDeliverable, Step, FillsBuffer, Bounded;
      ghost var h;
      found, p, q, passack, np, nq, h := ScanSlots();
      genuine := found;
      ScanEnd(Now());
      FrontOf(Now());
      if found {
        FirstIsDeliverable(AsRcv(), np, nq);
        DoesNotFill(AsRcv(), np, nq);
      } else {
        NothingLeft(AsRcv(), p != -1, np, nq, h, maxPos);
        TestAtEnd(AsRcv(), p != -1, np, nq, h, maxPos, startPos, p, q);
        if p != -1 && (q + 1) % size == p {
          found := true;
        }
      }
    }

    /** The loop of the scan. */
    method ScanSlots()
      returns (found: bool, p: int, q: int, passack: bool, ghost np: int, ghost nq: int, ghost h: int)
      requires Valid() && WellFramed(stored, base)
      ensures passack <==> nq >= acked
      ensures found || nq - base < size ==> q == Step(startPos, nq - base, size)
      ensures found || p != -1 ==> p == Step(startPos, np - base, size)
      ensures if found then FirstDeliverable(AsRcv(), np, nq) && nq < base + size - 1
              else Scanned(AsRcv(), p != -1, np, nq, h) && nq == acked + maxPos + 1
    {
      hide RingOk, UnitsOf, Scanned, WellFramed, Deliverable, FirstDeliverable, Step;
      p, q, passack, found := -1, startPos, startPos == lastAckPos, false;
      np, nq, h := base, base, base;
      FrontOf(Now());
      ScanBegins(AsRcv());
      ScanEnd(Now());
      var i, n := 0, maxPos + GetRcvDataSize();
      while i <= n
        invariant 0 <= i <= n + 1 && nq == base + i
        invariant 0 <= q < size && (i < size ==> q == Step(startPos, nq - base, size))
        invariant i <= n ==> cells[q] == CellOf(stored, taken, nq)
        invariant passack <==> nq >= acked
        invariant Scanned(AsRcv(), p != -1, np, nq, h)
        invariant p != -1 ==> p == Step(startPos, np - base, size)
      {
        found, p, np, h := Examine(p, q, passack, np, nq, h);
        if found {
          return;
        }
        PositionOf(Now(), nq);
        q := q + 1;
        if q == size {
          q := 0;
        }
        if q == lastAckPos {
          passack := true;
        }
        i := i + 1;
        nq := nq + 1;
        if i <= n {
          PositionOf(Now(), nq);
        }
      }
    }

    /** One round of the scan: what the slot `q` of packet `nq` says about the message begun at `np0`. */
    method Examine(p0: int, q: int, passack: bool, ghost np0: int, ghost nq: int, ghost h0: int)
      returns (found: bool, p: int, ghost np: int, ghost h: int)
      requires Valid() && WellFramed(stored, base) && base <= nq && (passack <==> nq >= acked)
      requires Scanned(AsRcv(), p0 != -1, np0, nq, h0)
      requires 0 <= q < size && q == Step(startPos, nq - base, size) && cells[q] == CellOf(stored, taken, nq)
      requires p0 != -1 ==> p0 == Step(startPos, np0 - base, size)
      ensures if found then FirstDeliverable(AsRcv(), np, nq) && nq < base + size - 1
              else Scanned(AsRcv(), p != -1, np, nq + 1, h)
      ensures found || p != -1 ==> p == Step(startPos, np - base, size)
    {
      hide RingOk, UnitsOf, Scanned, WellFramed, Deliverable, FirstDeliverable, Step;
      found, p, np, h := false, p0, np0, h0;
      ScanMoves(AsRcv(), p != -1, np, nq, h);
      ScanEnd(Now());
      if units[q] != null && units[q].flag == 1 {
        var f := units[q].frag;
        if IsFirst(f) && IsLast(f) {
          p, np := q, nq;
          found := true;
        } else if IsFirst(f) {
          p, np := q, nq;
        } else if IsLast(f) {
          if p != -1 {
            found := true;
          }
        }
      } else {
        p, h := -1, nq + 1;
      }
      if found {
        if !passack || !InOrder(units[q].frag) {
          return;
        }
        found := false;
      }
    }

    /** `scanMsg` */
    method ScanMsg()
      returns (found: bool, p: int, q: int, passack: bool, ghost genuine: bool, ghost np: int, ghost nq: int)
      requires Valid() && WellFramed(stored, base)
      modifies `startPos, `base, `taken, `cells, units, Units()`flag
      ensures Valid() && Units() <= old(Units())
      ensures base == SkipBad(stored, old(taken), old(base), acked)
      ensures taken == set n | n in old(taken) && n >= base
      ensures genuine ==> found && FirstDeliverable(AsRcv(), np, nq) && nq < base + size - 1 && passack == (nq >= acked)
      ensures genuine ==> p == Step(startPos, np - base, size) && q == Step(startPos, nq - base, size)
      ensures genuine && !passack ==> np == base
      ensures !genuine && found ==> passack && p == (q + 1) % size
      ensures !genuine <==> LooksEmpty(old(AsRcv())) || forall a, b :: !Deliverable(AsRcv(), a, b)
      ensures found && !genuine <==> !LooksEmpty(old(AsRcv())) && FillsBuffer(AsRcv())
    {
      hide RingOk, SkipBad, GoodFrom, UnitsOf, WellFramed, Deliverable, FirstDeliverable, Step, FillsBuffer;
      EmptyTest(Now());
      if startPos == lastAckPos && maxPos <= 0 {
        SkipBadStep(stored, taken, base, acked);
        TakenFromBase(Now());
        found, p, q, passack, genuine, np, nq := false, -1, startPos, true, false, base, base;
        return;
      }
      WellFramedFrom(stored, base, SkipBad(stored, taken, base, acked), taken, acked);
      SkipBadFront();
      found, p, q, passack, genuine, np, nq := FindMessage();
      if genuine && !passack {
        AckedIsAtFront(AsRcv(), np, nq);
      }
      FirstIsDeliverable(AsRcv(), np, nq);
    }

    /** `readMsg`: copy the first message that may be read to the user.  `some` tells whether there
        was one; `np..nq` are its packets. */
    method ReadMsg(data: array<Byte>, len: nat) returns (n: nat, ghost some: bool, ghost np: int, ghost nq: int)
      requires Valid() && WellFramed(stored, base) && len <= data.Length
      modifies `startPos, `base, `taken, `cells, units, Units()`flag, data
      ensures Valid() && Units() <= old(Units())
      ensures var r0 := AfterSkip(old(AsRcv()));
              && (!some <==> LooksEmpty(old(AsRcv())) || forall a, b :: !Deliverable(r0, a, b))
              && (!some ==> n == 0 && AsRcv() == r0)
              && (some ==>
                   && FirstDeliverable(r0, np, nq)
                   && AsRcv() == Taken(r0, np, nq)
                   && n <= len && data[..n] == Truncated(Bytes(Slice(stored, np, nq)), len))
    {
      hide RingOk, SkipBad, UnitsOf, WellFramed, Deliverable, FirstDeliverable, Step, Truncated;
      var found, p, q, passack;
      ghost var genuine;
      found, p, q, passack, genuine, np, nq := ScanMsg();
      assert AsRcv() == AfterSkip(old(AsRcv()));
      some := genuine;
      if !found {
        return 0, some, np, nq;
      }
      FirstIsDeliverable(AsRcv(), np, nq);
      n := CopyMsg(data, len, p, q, passack, genuine, np, nq);
    }

    /** The copying loop of `readMsg`.  Without a genuine message the positions are such that the
        loop is not entered. */
    method CopyMsg(data: array<Byte>, len: nat, p0: int, q: int, passack: bool, ghost genuine: bool, ghost np: int,
                   ghost nq: int)
      returns (n: nat)
      requires Valid() && len <= data.Length
      requires genuine ==> Deliverable(AsRcv(), np, nq) && nq < base + size - 1
      requires genuine ==> p0 == Step(startPos, np - base, size) && q == Step(startPos, nq - base, size)
      requires genuine ==> passack == (nq >= acked) && (!passack ==> np == base)
      requires !genuine ==> passack && p0 == (q + 1) % size
      modifies `startPos, `base, `taken, `cells, units, Units()`flag, data
      ensures Valid() && Units() <= old(Units())
      ensures !genuine ==> n == 0 && AsRcv() == old(AsRcv())
      ensures genuine ==> AsRcv() == Taken(old(AsRcv()), np, nq)
      ensures genuine ==> n <= len && data[..n] == Truncated(Bytes(Slice(stored, np, nq)), len)
    {
      hide RingOk, UnitsOf, Deliverable, Step, Truncated, Slice, Bytes, Copying;
      var p, rs := p0, len;
      ghost var m := np;
      if genuine {
        CopyBegins(p0, q, passack, len, np, nq);
      }
      assert data[..0] == [];
      while p != (q + 1) % size
        invariant 0 <= rs <= len && Units() <= old(Units())
        invariant p != (q + 1) % size ==> genuine
        invariant !genuine ==> Valid() && rs == len && AsRcv() == old(AsRcv())
        invariant genuine ==> Copying(p, q, passack, len, np, nq, m, data[..len - rs]) && np <= m <= nq + 1
        invariant startPos == old(startPos) && base == old(base) && taken == old(taken) && acked == old(acked)
        invariant stored == old(stored)
        decreases nq - m
      {
        p, rs := CopyUnit(data, len, p, q, rs, passack, np, nq, m);
        m := m + 1;
      }
      if genuine {
        CopyEnds(p, q, passack, len, np, nq, m, data[..len - rs]);
      }
      if !passack {
        startPos := (q + 1) % size;
        base := nq + 1;
      } else {
        if genuine {
          taken := taken + Interval(np, nq);
        }
      }
      return len - rs;
    }

    /** The buffer while packets `np..m-1` of the message have been copied and released or marked. */
    ghost predicate Copying(p: int, q: int, passack: bool, len: nat, np: int, nq: int, m: int, done: seq<Byte>)
      reads this, units, Units()
    {
      && Linked() && base <= np <= nq && np <= m <= nq + 1 <= base + size - 1
      && 0 <= startPos < size && q == Step(startPos, nq - base, size) && p == Step(startPos, m - base, size)
      && taken !! Interval(np, nq) && (forall n :: np <= n <= nq ==> n in stored)
      && (if passack then nq >= acked && RingOk(Now().(taken := taken + Interval(np, m - 1)))
          else np == base && nq < acked && RingOk(Now().(start := p, base := m)))
      && |done| <= len && done == Truncated(Bytes(Slice(stored, np, m - 1)), len)
    }

    lemma CopyBegins(p0: int, q: int, passack: bool, len: nat, np: int, nq: int)
      requires Valid() && Deliverable(AsRcv(), np, nq) && nq < base + size - 1
      requires p0 == Step(startPos, np - base, size) && q == Step(startPos, nq - base, size)
      requires passack == (nq >= acked) && (!passack ==> np == base)
      ensures Copying(p0, q, passack, len, np, nq, np, [])
      ensures np <= nq && p0 != (q + 1) % size
    {
      hide RingOk, UnitsOf, Deliverable, Step, Truncated, Slice, Bytes;
      WholeIsThere(AsRcv(), np, nq);
      FrontOf(Now());
      StepIsRemainder(q, 1, size);
      NextPosition(startPos, np - base, nq - base, size);
      NothingCopied(stored, np, len);
      assert taken + Interval(np, np - 1) == taken;
      ScanEnd(Now());
    }

    lemma CopyEnds(p: int, q: int, passack: bool, len: nat, np: int, nq: int, m: int, done: seq<Byte>)
      requires Copying(p, q, passack, len, np, nq, m, done) && p == (q + 1) % size
      ensures m == nq + 1
      ensures Linked() && done == Truncated(Bytes(Slice(stored, np, nq)), len)
      ensures passack ==> RingOk(Now().(taken := taken + Interval(np, nq))) && nq >= acked
      ensures !passack ==> np == base && nq < acked && RingOk(Now().(start := p, base := nq + 1))
    {
      hide RingOk, UnitsOf, Step, Truncated, Bytes, Slice;
      NextPosition(startPos, if m <= nq then m - base else nq - base, nq - base, size);
      StepIsRemainder(q, 1, size);
    }

    /** Copy one packet of the message, and release it or mark it as read. */
    method CopyUnit(data: array<Byte>, len: nat, p0: int, q: int, rs0: nat, passack: bool, ghost np: int,
                    ghost nq: int, ghost m: int)
      returns (p: int, rs: nat)
      requires rs0 <= len <= data.Length && Copying(p0, q, passack, len, np, nq, m, data[..len - rs0])
      requires p0 != (q + 1) % size
      modifies `cells, units, Units()`flag, data
      ensures rs <= rs0 && Units() <= old(Units()) && m <= nq
      ensures Copying(p, q, passack, len, np, nq, m + 1, data[..len - rs])
    {
      hide RingOk, UnitsOf, Deliverable, Step, Truncated, Slice, Bytes;
      p, rs := p0, rs0;
      StepIsRemainder(q, 1, size);
      NotYet(startPos, m - base, nq - base, size);
      NextPosition(startPos, m - base, nq - base, size);
      PositionOfAny(passack, Now(), p, m, np);
      CopyStep(stored, np, m, len, data[..len - rs]);
      rs := CopyWhatFits(data, len, rs, units[p].frag.data);
      p := Settle(p, passack, np, m);
    }

    /** Release a copied packet, or mark it as read if it is not acknowledged, and step on. */
    method Settle(at: int, passack: bool, ghost np: int, ghost m: int) returns (p: int)
      requires Linked() && base <= np <= m < base + size && m in stored && m !in taken
      requires 0 <= at < size && cells[at] == Occupied(stored[m], false)
      requires passack ==> at == Step(startPos, m - base, size)
      requires passack ==> RingOk(Now().(taken := taken + Interval(np, m - 1)))
      requires !passack ==> m < acked && RingOk(Now().(start := at, base := m))
      modifies `cells, units, Units()`flag
      ensures Linked() && Units() <= old(Units()) && p == if at + 1 == size then 0 else at + 1
      ensures passack ==> RingOk(Now().(taken := taken + Interval(np, m)))
      ensures !passack ==> RingOk(Now().(start := p, base := m + 1))
    {
      hide RingOk, UnitsOf, Step;
      p := at;
      if !passack {
        ReleaseFront(Now().(start := p, base := m));
        assert taken - {m} == taken;
        Release(p);
      } else {
        MarkRing(Now().(taken := taken + Interval(np, m - 1)), m);
        assert taken + Interval(np, m - 1) + {m} == taken + Interval(np, m);
        MarkRead(p);
      }
      p := p + 1;
      if p == size {
        p := 0;
      }
    }

    /** Mark the unit in slot `p` as read. */
    method MarkRead(p: int)
      requires Linked() && 0 <= p < size && units[p] != null
      modifies `cells, Units()`flag
      ensures Linked() && cells == old(cells)[p := Occupied(old(cells)[p].frag, true)]
    {
      units[p].flag := 2;
      cells := cells[p := Occupied(cells[p].frag, true)];
    }

    /** `getRcvMsgNum`: 1 if there is a message to read, or one that fills the buffer and cannot be read. */
    method GetRcvMsgNum() returns (n: int)
      requires Valid() && WellFramed(stored, base)
      modifies `startPos, `base, `taken, `cells, units, Units()`flag
      ensures Valid() && Units() <= old(Units()) && AsRcv() == AfterSkip(old(AsRcv()))
      ensures n == 0 || n == 1
      ensures n == 1 <==>
        !LooksEmpty(old(AsRcv())) && (FillsBuffer(AsRcv()) || exists a, b :: Deliverable(AsRcv(), a, b))
    {
      hide RingOk, SkipBad, UnitsOf, WellFramed, Deliverable, FirstDeliverable, Step, FillsBuffer;
      var found, p, q, passack;
      ghost var genuine, np, nq;
      found, p, q, passack, genuine, np, nq := ScanMsg();
      FirstIsDeliverable(AsRcv(), np, nq);
      return if found then 1 else 0;
    }
  }

  /** A message that cannot be read fills the buffer: all slots but the one that is always free hold
      its packets, the acknowledged part ends before the last of them, and that one either does not
      end the message or ends a message that must be acknowledged first. */
  predicate FillsBuffer(r: Rcv) {
    var end := r.start + r.size - 2;
    && r.start <= end && r.lastAck <= end
    && AllReady(r, r.start, end + 1)
    && (forall n :: r.start <= n <= end ==> (IsFirst(r.stored[n]) <==> n == r.start))
    && (IsLast(r.stored[end]) ==> InOrder(r.stored[end]))
  }

  /** A buffer of three slots, holding a message of two packets that must be acknowledged first, is
      announced as holding a message although none can be read. */
  lemma WholeMessageFillsBuffer(f: Frag, g: Frag)
    requires IsFirst(f) && !IsLast(f) && !IsFirst(g) && IsLast(g) && InOrder(g)
    ensures var r := OnData(OnData(InitRcv(3, false), 0, f).0, 1, g).0;
            !LooksEmpty(r) && AfterSkip(r) == r && FillsBuffer(r) && forall a, b :: !Deliverable(r, a, b)
  {
    var r := OnData(OnData(InitRcv(3, false), 0, f).0, 1, g).0;
    assert r.stored == map[0 := f, 1 := g] && 1 in r.stored;
    assert r.taken == set n | n in r.taken && n >= 0;
    forall a, b ensures !Deliverable(r, a, b) {
      assert Deliverable(r, a, b) ==> b in r.stored;
    }
  }

  /** A message without an end that fills the buffer and is acknowledged is not announced. */
  lemma AcknowledgedIsNotAnnounced(f: Frag, g: Frag)
    requires IsFirst(f) && !IsLast(f) && !IsFirst(g) && !IsLast(g)
    ensures var r := SendAck(OnData(OnData(InitRcv(3, false), 0, f).0, 1, g).0, true).0;
            r.lastAck == 2 && AfterSkip(r) == r && !FillsBuffer(r) && forall a, b :: !Deliverable(r, a, b)
  {
    var r0 := OnData(OnData(InitRcv(3, false), 0, f).0, 1, g).0;
    assert r0.stored == map[0 := f, 1 := g] && r0.loss == {};
    var r := SendAck(r0, true).0;
    assert GoodFrom(r.stored, r.taken, 2, 2);
    assert GoodFrom(r.stored, r.taken, 1, 2);
    assert r.taken == set n | n in r.taken && n >= 0;
    forall a, b ensures !Deliverable(r, a, b) {
      assert Deliverable(r, a, b) ==> b in r.stored;
    }
  }

  /** The receiver after everything bad at the front has been released. */
  ghost function AfterSkip(r: Rcv): Rcv {
    var base := SkipBad(r.stored, r.taken, r.start, r.lastAck);
    r.(start := base, taken := set n | n in r.taken && n >= base)
  }

  /** The receiver after the message `p..q` has been read. */
  ghost function Taken(r: Rcv, p: int, q: int): Rcv {
    if q < r.lastAck then r.(start := q + 1) else r.(taken := r.taken + Interval(p, q))
  }

  // ----- what the scan is about

  predicate Ready(stored: map<int, Frag>, taken: set<int>, n: int) {
    n in stored && n !in taken
  }

  /** From packet `n` to the end of its message, or to the end of the acknowledged part, every packet
      is there and unread. */
  predicate GoodFrom(stored: map<int, Frag>, taken: set<int>, n: int, acked: int)
    decreases acked - n
  {
    n < acked ==> Ready(stored, taken, n) && (IsLast(stored[n]) || GoodFrom(stored, taken, n + 1, acked))
  }

  lemma GoodFromStep(stored: map<int, Frag>, taken: set<int>, n: int, acked: int)
    ensures GoodFrom(stored, taken, n, acked) <==>
            (n < acked ==> Ready(stored, taken, n) && (IsLast(stored[n]) || GoodFrom(stored, taken, n + 1, acked)))
  {
  }

  predicate GoodFront(stored: map<int, Frag>, taken: set<int>, n: int, acked: int) {
    Ready(stored, taken, n) && IsFirst(stored[n]) && GoodFrom(stored, taken, n, acked)
  }

  /** Where the front stands after everything bad has been released. */
  function SkipBad(stored: map<int, Frag>, taken: set<int>, base: int, acked: int): int
    decreases acked - base
  {
    if base >= acked || GoodFront(stored, taken, base, acked) then base
    else SkipBad(stored, taken, base + 1, acked)
  }

  lemma {:induction false} GoodFromSame(stored: map<int, Frag>, taken: set<int>, taken': set<int>, n: int, acked: int)
    requires forall m :: m >= n ==> (m in taken <==> m in taken')
    ensures GoodFrom(stored, taken, n, acked) == GoodFrom(stored, taken', n, acked)
    decreases acked - n
  {
    if n < acked {
      GoodFromSame(stored, taken, taken', n + 1, acked);
    }
  }

  lemma {:induction false} SkipBadSame(stored: map<int, Frag>, taken: set<int>, taken': set<int>, base: int, acked: int)
    requires forall m :: m >= base ==> (m in taken <==> m in taken')
    ensures SkipBad(stored, taken, base, acked) == SkipBad(stored, taken', base, acked)
    decreases acked - base
  {
    if base < acked {
      GoodFromSame(stored, taken, taken', base, acked);
      SkipBadSame(stored, taken, taken', base + 1, acked);
    }
  }

  lemma SkipBadStep(stored: map<int, Frag>, taken: set<int>, base: int, acked: int)
    ensures base >= acked || GoodFront(stored, taken, base, acked) ==> SkipBad(stored, taken, base, acked) == base
    ensures base < acked && !GoodFront(stored, taken, base, acked) ==>
      SkipBad(stored, taken, base, acked) == SkipBad(stored, taken - {base}, base + 1, acked)
  {
    SkipBadSame(stored, taken, taken - {base}, base + 1, acked);
  }

  lemma TakenFromBase(g: Layout)
    requires RingOk(g)
    ensures g.taken == set n | n in g.taken && n >= g.base
  {
  }

  /** The slot of packet `n`, and whether it is where the acknowledged part ends. */
  lemma PositionOf(g: Layout, n: int)
    requires RingOk(g) && g.base <= n < g.base + g.size
    ensures var i := Step(g.start, n - g.base, g.size);
            && 0 <= i < g.size == |g.cells| && g.cells[i] == CellOf(g.stored, g.taken, n)
            && (i == g.ackPos <==> n == g.acked)
            && (if i + 1 == g.size then 0 else i + 1) == Step(g.start, n + 1 - g.base, g.size)
  {
    SlotAt(g.cells, g.size, g.start, g.base, g.stored, g.taken, n - g.base);
    StepInjective(g.start, n - g.base, g.acked - g.base, g.size);
  }

  /** Copy as much of a packet as the user still has room for; `rs` of `len` bytes are left. */
  method CopyWhatFits(data: array<Byte>, len: nat, rs0: nat, bytes: seq<Byte>) returns (rs: nat)
    requires rs0 <= len <= data.Length
    modifies data
    ensures var k := if |bytes| > rs0 then rs0 else |bytes|;
            rs == rs0 - k && data[..len - rs] == old(data[..len - rs0]) + bytes[..k]
  {
    rs := rs0;
    var unitsize := |bytes|;
    if rs >= 0 && unitsize > rs {
      unitsize := rs;
    }
    if unitsize > 0 {
      CopyInto(data, len - rs, bytes[..unitsize]);
      rs := rs - unitsize;
    }
  }

  method CopyInto(data: array<Byte>, at: nat, chunk: seq<Byte>)
    requires at + |chunk| <= data.Length
    modifies data
    ensures data[..at + |chunk|] == old(data[..at]) + chunk
    ensures data[at + |chunk|..] == old(data[at + |chunk|..])
  {
    forall i | 0 <= i < |chunk| {
      data[at + i] := chunk[i];
    }
  }

  lemma UnitSetAfterTake(us: seq<Unit?>, p: int)
    requires 0 <= p < |us| && us[p] != null && forall i, j :: 0 <= i < j < |us| && us[i] != null ==> us[i] != us[j]
    ensures UnitsOf(us[p := null]) == UnitsOf(us) - {us[p]}
  {
    var us' := us[p := null];
    forall u: Unit | u in us && u != us[p] ensures u in us' {
      var i :| 0 <= i < |us| && us[i] == u;
      assert us'[i] == u;
    }
  }

  /** The slot the user reads from. */
  lemma FrontOf(g: Layout)
    requires RingOk(g)
    ensures 0 <= g.start < g.size == |g.cells| && g.base <= g.acked < g.base + g.size
    ensures (g.start != g.ackPos <==> g.base < g.acked) && g.cells[g.start] == CellOf(g.stored, g.taken, g.base)
  {
    SlotAt(g.cells, g.size, g.start, g.base, g.stored, g.taken, 0);
  }

  /** The ring when the front slot has been released. */
  function Stepped(g: Layout): Layout
    requires 0 <= g.start < |g.cells|
  {
    Passed(g).(cells := g.cells[g.start := Vacant])
  }

  /** The ring when its front has moved on by one place. */
  function Passed(g: Layout): Layout {
    g.(start := if g.start + 1 == g.size then 0 else g.start + 1, base := g.base + 1, taken := g.taken - {g.base})
  }

  lemma ReleaseFront(g: Layout)
    requires RingOk(g) && g.base < g.acked
    ensures 0 <= g.start < |g.cells| && RingOk(Stepped(g))
  {
    hide Holds;
    HoldsSizes(g);
    HoldsAfterRelease(g.cells, g.size, g.start, g.base, g.stored, g.taken);
  }

  /** `done` is what has been copied when `rs` bytes are still wanted, on the way to `result`. */
  predicate ReadSoFar(stored: map<int, Frag>, base: int, acked: int, notch: nat, rs: nat, done: seq<Byte>,
                      result: Cursor)
    requires Readable(stored, base, acked, notch)
  {
    var c := ReadFrom(stored, base, acked, notch, rs);
    result == Cursor(c.pos, c.notch, done + c.data)
  }

  lemma ReadSoFarNothing(stored: map<int, Frag>, base: int, acked: int, notch: nat, rs: nat)
    requires Readable(stored, base, acked, notch)
    ensures ReadSoFar(stored, base, acked, notch, rs, [], ReadFrom(stored, base, acked, notch, rs))
  {
    hide ReadFrom, Readable;
    var c := ReadFrom(stored, base, acked, notch, rs);
    assert [] + c.data == c.data;
  }

  lemma ReadStep(stored: map<int, Frag>, base: int, acked: int, notch: nat, rs: nat, done: seq<Byte>, result: Cursor)
    requires Readable(stored, base, acked, notch) && base < acked && rs > 0
    requires ReadSoFar(stored, base, acked, notch, rs, done, result)
    ensures base in stored && notch < |stored[base].data|
    ensures var d := stored[base].data;
            if rs < |d| - notch then
              Readable(stored, base, acked, notch + rs) &&
                ReadSoFar(stored, base, acked, notch + rs, 0, done + d[notch..notch + rs], result)
            else
              Readable(stored, base + 1, acked, 0) &&
                ReadSoFar(stored, base + 1, acked, 0, rs - (|d| - notch), done + d[notch..], result)
  {
    var d := stored[base].data;
    if rs < |d| - notch {
      assert d[notch..][..rs] == d[notch..notch + rs];
      assert done + d[notch..notch + rs] + [] == done + d[notch..notch + rs];
    } else {
      var c := ReadFrom(stored, base + 1, acked, 0, rs - (|d| - notch));
      assert done + (d[notch..] + c.data) == done + d[notch..] + c.data;
    }
  }

  lemma ReadDone(stored: map<int, Frag>, base: int, acked: int, notch: nat, rs: nat, done: seq<Byte>, result: Cursor)
    requires Readable(stored, base, acked, notch) && (base == acked || rs == 0)
    requires ReadSoFar(stored, base, acked, notch, rs, done, result)
    ensures result == Cursor(base, notch, done)
  {
    assert done + [] == done;
  }

  // ----- scanning for a message

  /** Wherever two neighbouring packets are both there, one ends a message exactly when the other
      begins one. */
  predicate WellFramed(stored: map<int, Frag>, base: int) {
    forall n, m :: base <= n && m == n + 1 && n in stored && m in stored ==> (IsLast(stored[n]) <==> IsFirst(stored[m]))
  }

  ghost predicate NoneBefore(r: Rcv, limit: int) {
    forall a, b :: Deliverable(r, a, b) ==> b >= limit
  }

  predicate AllReady(r: Rcv, a: int, b: int) {
    forall n :: a <= n < b ==> n in r.stored && n !in r.taken
  }

  /** The scan has reached packet `nq`.  With a head, the message begun at `np` has run on so far
      (its last fragment may just have been passed over); without one, nothing since `h` begins a
      message. */
  ghost predicate Scanned(r: Rcv, hasHead: bool, np: int, nq: int, h: int) {
    && NoneBefore(r, nq)
    && if hasHead then
         && r.start <= np < nq && AllReady(r, np, nq)
         && (forall n :: np <= n < nq ==> (IsFirst(r.stored[n]) <==> n == np))
         && (forall n :: np <= n < nq - 1 ==> !IsLast(r.stored[n]))
       else
         && r.start <= h <= nq && (h == r.start || h - 1 !in r.stored || h - 1 in r.taken)
         && AllReady(r, h, nq)
         && (forall n :: h <= n < nq ==> !IsFirst(r.stored[n]))
  }

  lemma ScanBegins(r: Rcv)
    ensures Scanned(r, false, r.start, r.start, r.start)
  {
  }

  lemma ReadyMore(r: Rcv, a: int, b: int)
    requires AllReady(r, a, b) && b in r.stored && b !in r.taken
    ensures AllReady(r, a, b + 1)
  {
  }

  /** A hole ends every message begun before it. */
  lemma ScanOverHole(r: Rcv, hasHead: bool, np: int, nq: int, h: int)
    requires Scanned(r, hasHead, np, nq, h) && r.start <= nq && (nq !in r.stored || nq in r.taken)
    ensures Scanned(r, false, np, nq + 1, nq + 1)
  {
    forall a, b | Deliverable(r, a, b) ensures b >= nq + 1 {
      assert b != nq;
    }
  }

  /** A message that ends at `nq` and may be read begins at the head of the scan. */
  lemma EndsAtHead(r: Rcv, hasHead: bool, np: int, nq: int, h: int, a: int)
    requires Scanned(r, hasHead, np, nq, h) && Deliverable(r, a, nq) && a < nq
    ensures hasHead && a == np
  {
    assert r.start <= a && a in r.stored && IsFirst(r.stored[a]);
    assert hasHead ==> np in r.stored && IsFirst(r.stored[np]);
    assert !hasHead && a <= h - 1 ==> h - 1 in r.stored && h - 1 !in r.taken;
  }

  lemma ScanOverUnit(r: Rcv, hasHead: bool, np: int, nq: int, h: int)
    requires Scanned(r, hasHead, np, nq, h) && r.start <= nq && nq in r.stored && nq !in r.taken
    requires WellFramed(r.stored, r.start)
    ensures var f := r.stored[nq];
            if IsFirst(f) then
              (!Deliverable(r, nq, nq) ==> Scanned(r, true, nq, nq + 1, h))
            else if hasHead then
              (!Deliverable(r, np, nq) ==> Scanned(r, true, np, nq + 1, h))
            else Scanned(r, false, np, nq + 1, h)
  {
    var f := r.stored[nq];
    forall a, b | Deliverable(r, a, b) && b == nq
      ensures if IsFirst(f) then a == nq else hasHead && a == np
    {
      if IsFirst(f) {
        assert nq in r.stored;
      } else {
        assert a < nq;
        EndsAtHead(r, hasHead, np, nq, h, a);
      }
    }
    if hasHead {
      ReadyMore(r, np, nq);
      assert nq - 1 in r.stored;
    } else {
      ReadyMore(r, h, nq);
    }
    ReadyMore(r, nq, nq);
  }

  /** When a head and an end meet, the message between them is whole. */
  lemma FoundWhole(r: Rcv, np: int, nq: int, h: int)
    requires Scanned(r, true, np, nq, h) && nq in r.stored && nq !in r.taken
    requires WellFramed(r.stored, r.start) && !IsFirst(r.stored[nq]) && IsLast(r.stored[nq])
    ensures Whole(r, np, nq)
  {
    assert nq - 1 in r.stored;
    ReadyMore(r, np, nq);
  }

  lemma FoundSolo(r: Rcv, nq: int)
    requires r.start <= nq && nq in r.stored && nq !in r.taken && IsFirst(r.stored[nq]) && IsLast(r.stored[nq])
    ensures Whole(r, nq, nq)
  {
  }

  lemma FoundIsFirst(r: Rcv, hasHead: bool, np: int, nq: int, h: int, p: int)
    requires Scanned(r, hasHead, np, nq, h) && Deliverable(r, p, nq)
    requires p == nq || (hasHead && p == np)
    ensures FirstDeliverable(r, p, nq)
  {
    assert p in r.stored && IsFirst(r.stored[p]);
    forall a, b | Deliverable(r, a, b) ensures p <= a {
      assert b >= nq;
    }
  }

  /** Everything one iteration of the scan needs to know. */
  lemma ScanMoves(r: Rcv, hasHead: bool, np: int, nq: int, h: int)
    requires Scanned(r, hasHead, np, nq, h) && r.start <= nq && WellFramed(r.stored, r.start)
    ensures nq !in r.stored || nq in r.taken ==> Scanned(r, false, np, nq + 1, nq + 1)
    ensures nq in r.stored && nq !in r.taken ==>
      var f := r.stored[nq];
      var may := nq < r.lastAck || !InOrder(f);
      if IsFirst(f) then
        if IsLast(f) && may then FirstDeliverable(r, nq, nq) else Scanned(r, true, nq, nq + 1, h)
      else if hasHead then
        if IsLast(f) && may then FirstDeliverable(r, np, nq) else Scanned(r, true, np, nq + 1, h)
      else Scanned(r, false, np, nq + 1, h)
  {
    hide Scanned, WellFramed, FirstDeliverable, Whole;
    if nq !in r.stored || nq in r.taken {
      ScanOverHole(r, hasHead, np, nq, h);
    } else {
      ScanOverUnit(r, hasHead, np, nq, h);
      var f := r.stored[nq];
      if IsFirst(f) && IsLast(f) {
        FoundSolo(r, nq);
        if nq < r.lastAck || !InOrder(f) {
          FoundIsFirst(r, hasHead, np, nq, h, nq);
        }
      } else if IsFirst(f) {
        NotAnEnd(r, nq, nq);
      } else if hasHead && IsLast(f) {
        FoundWhole(r, np, nq, h);
        if nq < r.lastAck || !InOrder(f) {
          FoundIsFirst(r, hasHead, np, nq, h, np);
        }
      } else if hasHead {
        NotAnEnd(r, np, nq);
      }
    }
  }

  lemma NotAnEnd(r: Rcv, p: int, q: int)
    requires q in r.stored && !IsLast(r.stored[q])
    ensures !Deliverable(r, p, q)
  {
  }

  /** The scan goes on to the last packet there is. */
  lemma ScanEnd(g: Layout)
    requires RingOk(g)
    ensures 0 <= g.maxPos && g.acked + g.maxPos < g.base + g.size && Bounded(g.stored, g.acked + g.maxPos + 1)
    ensures Bounded(g.stored, g.base + g.size - 1) && (g.maxPos > 0 ==> g.acked + g.maxPos in g.stored)
    ensures g.cells[g.start] == CellOf(g.stored, g.taken, g.base) && g.start == Step(g.start, 0, g.size)
  {
    SlotAt(g.cells, g.size, g.start, g.base, g.stored, g.taken, 0);
  }

  lemma NothingLeft(r: Rcv, hasHead: bool, np: int, nq: int, h: int, maxPos: int)
    requires Scanned(r, hasHead, np, nq, h) && Bounded(r.stored, r.lastAck + maxPos + 1) && nq == r.lastAck + maxPos + 1
    ensures forall a, b :: !Deliverable(r, a, b)
  {
    forall a, b ensures !Deliverable(r, a, b) {
      assert Deliverable(r, a, b) ==> b in r.stored;
    }
  }

  /** The message `a..b` is not one that fills the buffer without being readable. */
  lemma DoesNotFill(r: Rcv, a: int, b: int)
    requires Deliverable(r, a, b) && WellFramed(r.stored, r.start) && Bounded(r.stored, r.start + r.size - 1)
    requires r.start <= r.lastAck
    ensures !FillsBuffer(r)
  {
    assert a in r.stored && b in r.stored;
    assert b + 1 in r.stored ==> IsFirst(r.stored[b + 1]);
  }

  /** When the scan has found nothing, a message fills the buffer exactly if it begins at the front and
      the scan has run through all slots. */
  lemma ScanSawAll(r: Rcv, hasHead: bool, np: int, nq: int, h: int, maxPos: int)
    requires Scanned(r, hasHead, np, nq, h) && nq == r.lastAck + maxPos + 1 && WellFramed(r.stored, r.start)
    requires 0 <= maxPos && r.start <= r.lastAck && Bounded(r.stored, r.start + r.size - 1)
    requires Bounded(r.stored, nq) && (maxPos > 0 ==> r.lastAck + maxPos in r.stored)
    requires forall a, b :: !Deliverable(r, a, b)
    ensures hasHead ==> r.start <= np < nq < r.start + r.size
    ensures FillsBuffer(r) <==> hasHead && np == r.start && nq == r.start + r.size - 1
  {
    var end := r.start + r.size - 2;
    if hasHead {
      assert nq - 1 in r.stored && np in r.stored;
      if np == r.start && nq == end + 1 {
        assert IsLast(r.stored[end]) ==> Whole(r, np, end);
        assert !Deliverable(r, np, end);
      }
    }
    if FillsBuffer(r) {
      assert end in r.stored;
      assert !hasHead ==> r.start <= h - 1 <= end || h == r.start;
      assert r.start <= h - 1 <= end ==> h - 1 in r.stored;
      assert r.start in r.stored && IsFirst(r.stored[r.start]);
    }
  }

  lemma TestAtEnd(r: Rcv, hasHead: bool, np: int, nq: int, h: int, maxPos: int, start: int, p: int, q: int)
    requires Scanned(r, hasHead, np, nq, h) && nq == r.lastAck + maxPos + 1 && WellFramed(r.stored, r.start)
    requires 0 <= maxPos && r.start <= r.lastAck && Bounded(r.stored, r.start + r.size - 1)
    requires Bounded(r.stored, nq) && (maxPos > 0 ==> r.lastAck + maxPos in r.stored)
    requires forall a, b :: !Deliverable(r, a, b)
    requires 0 <= start < r.size && (nq - r.start < r.size ==> q == Step(start, nq - r.start, r.size))
    requires hasHead ==> p == Step(start, np - r.start, r.size)
    ensures hasHead && (q + 1) % r.size == p <==> FillsBuffer(r)
  {
    hide Scanned, WellFramed, Bounded, Deliverable, FillsBuffer, Step;
    ScanSawAll(r, hasHead, np, nq, h, maxPos);
    if hasHead {
      LastTest(start, np - r.start, nq - r.start, r.size);
    }
  }

  /** The test made when the scan has found nothing. */
  lemma LastTest(start: int, a: int, b: int, size: int)
    requires 0 <= start < size && 0 <= a < b < size
    ensures (Step(start, b, size) + 1) % size == Step(start, a, size) <==> a == 0 && b == size - 1
  {
    StepIsRemainder(Step(start, b, size), 1 - size, size);
    RemainderIs(Step(start, b, size) + 1, size, if Step(start, b, size) + 1 == size then 1 else 0,
                if Step(start, b, size) + 1 == size then 0 else Step(start, b, size) + 1);
  }

  lemma EmptyTest(g: Layout)
    requires RingOk(g)
    ensures g.start == g.ackPos <==> g.base == g.acked
    ensures g.maxPos <= 0 <==> forall n :: n in g.stored ==> n <= g.acked
    ensures g.base <= g.acked
  {
    StepInjective(g.start, 0, g.acked - g.base, g.size);
  }

  lemma {:induction false} SkipBadRange(stored: map<int, Frag>, taken: set<int>, base: int, acked: int)
    requires base <= acked
    ensures base <= SkipBad(stored, taken, base, acked) <= acked
    decreases acked - base
  {
    if base < acked && !GoodFront(stored, taken, base, acked) {
      SkipBadRange(stored, taken, base + 1, acked);
    }
  }

  lemma WellFramedFrom(stored: map<int, Frag>, base: int, base': int, taken: set<int>, acked: int)
    requires WellFramed(stored, base) && base <= acked && base' == SkipBad(stored, taken, base, acked)
    ensures WellFramed(stored, base')
  {
    SkipBadRange(stored, taken, base, acked);
  }

  lemma FirstIsDeliverable(r: Rcv, p: int, q: int)
    ensures FirstDeliverable(r, p, q) ==> Deliverable(r, p, q)
  {
  }

  /** The first last fragment at or after a good front. */
  lemma {:induction false} EndOfFront(r: Rcv, n: int, nq: int) returns (e: int)
    requires n <= nq < r.lastAck && GoodFrom(r.stored, r.taken, n, r.lastAck)
    requires nq in r.stored && IsLast(r.stored[nq])
    ensures n <= e <= nq
    ensures forall m :: n <= m <= e ==> m in r.stored && m !in r.taken && (IsLast(r.stored[m]) <==> m == e)
    decreases nq - n
  {
    if IsLast(r.stored[n]) {
      e := n;
    } else {
      e := EndOfFront(r, n + 1, nq);
    }
  }

  /** A message within the acknowledged part that is the first to be read begins at the front. */
  lemma AckedIsAtFront(r: Rcv, np: int, nq: int)
    requires FirstDeliverable(r, np, nq) && nq < r.lastAck && WellFramed(r.stored, r.start)
    requires r.start < r.lastAck ==> GoodFront(r.stored, r.taken, r.start, r.lastAck)
    ensures np == r.start
  {
    assert nq in r.stored && IsLast(r.stored[nq]);
    var e := EndOfFront(r, r.start, nq);
    forall n | r.start <= n <= e ensures IsFirst(r.stored[n]) <==> n == r.start {
      if n > r.start {
        assert n - 1 in r.stored;
      }
    }
    assert Deliverable(r, r.start, e);
  }

  // ----- copying a message

  lemma WholeIsThere(r: Rcv, p: int, q: int)
    requires Deliverable(r, p, q)
    ensures r.start <= p <= q && forall n :: p <= n <= q ==> n in r.stored && n !in r.taken
  {
  }

  lemma NextPosition(start: int, d: int, e: int, size: int)
    requires 0 <= start < size && 0 <= d <= e && e + 1 < size
    ensures 0 <= Step(start, d, size) < size
    ensures (if Step(start, d, size) + 1 == size then 0 else Step(start, d, size) + 1) == Step(start, d + 1, size)
    ensures Step(Step(start, e, size), 1, size) == Step(start, e + 1, size)
    ensures Step(start, d, size) != Step(start, e + 1, size)
    ensures Step(start, d + 1, size) != Step(start, e + 1, size) <==> d + 1 <= e
    ensures 0 <= Step(start, e, size) < size
  {
  }

  lemma NotYet(start: int, d: int, e: int, size: int)
    requires 0 <= start < size && 0 <= d <= e + 1 && 0 <= e && e + 1 < size
    requires Step(start, d, size) != Step(Step(start, e, size), 1, size)
    ensures d <= e
  {
  }

  /** Packet `m` of the message that begins at `np` lies in slot `p`: the packets before it have been marked in
      the ring `g`, or released. */
  lemma PositionOfAny(passack: bool, g: Layout, p: int, m: int, np: int)
    requires g.base <= np <= m < g.base + g.size && p == Step(g.start, m - g.base, g.size)
    requires m in g.stored && m !in g.taken
    requires passack ==> RingOk(g.(taken := g.taken + Interval(np, m - 1)))
    requires !passack ==> RingOk(g.(start := p, base := m))
    ensures 0 <= p < g.size == |g.cells| && g.cells[p] == Occupied(g.stored[m], false)
  {
    if passack {
      PositionOf(g.(taken := g.taken + Interval(np, m - 1)), m);
    } else {
      FrontOf(g.(start := p, base := m));
    }
  }

  lemma MarkRing(g: Layout, n: int)
    requires RingOk(g) && g.base <= n < g.base + g.size && n in g.stored
    ensures var p := Step(g.start, n - g.base, g.size);
            && 0 <= p < |g.cells|
            && RingOk(g.(cells := g.cells[p := Occupied(g.stored[n], true)], taken := g.taken + {n}))
  {
    hide Holds;
    HoldsSizes(g);
    HoldsAfterMark(g.cells, g.size, g.start, g.base, g.stored, g.taken, n);
  }

  lemma NothingCopied(stored: map<int, Frag>, np: int, len: nat)
    ensures Truncated(Bytes(Slice(stored, np, np - 1)), len) == []
  {
  }

  /** One more packet is copied, or as much of it as fits. */
  lemma CopyStep(stored: map<int, Frag>, np: int, m: int, len: nat, done: seq<Byte>)
    requires np <= m && forall n :: np <= n <= m ==> n in stored
    requires done == Truncated(Bytes(Slice(stored, np, m - 1)), len) && |done| <= len
    ensures var d := stored[m].data;
            var k := if |d| > len - |done| then len - |done| else |d|;
            Truncated(Bytes(Slice(stored, np, m)), len) == done + d[..k]
  {
    hide Truncated, Bytes, Slice;
    SliceNext(stored, np, m);
    TruncatedNext(Bytes(Slice(stored, np, m - 1)), stored[m].data, len);
  }

  lemma SliceNext(stored: map<int, Frag>, np: int, m: int)
    requires np <= m && forall n :: np <= n <= m ==> n in stored
    ensures Bytes(Slice(stored, np, m)) == Bytes(Slice(stored, np, m - 1)) + stored[m].data
  {
    var fs := Slice(stored, np, m);
    assert fs[..|fs| - 1] == Slice(stored, np, m - 1);
    assert fs[|fs| - 1] == stored[m];
  }

  lemma TruncatedNext(b: seq<Byte>, d: seq<Byte>, len: nat)
    ensures |Truncated(b, len)| <= len
    ensures var done := Truncated(b, len);
            var k := if |d| > len - |done| then len - |done| else |d|;
            Truncated(b + d, len) == done + d[..k]
  {
  }

  // ----- the skip of the specification

  /** What holds of the packets of an honest sender in message mode: they are framed, they are read a
      whole message at a time, and reading has stopped at the end of a message. */
  ghost predicate MessagesInOrder(r: Rcv) {
    && WellFramed(r.stored, r.start)
    && (forall n, m :: r.start <= n && m == n + 1 && n in r.stored && m in r.stored && !IsLast(r.stored[n]) ==>
          (n in r.taken <==> m in r.taken))
    && (forall n :: r.start <= n < r.lastAck ==> n in r.stored)
    && (r.start in r.stored && r.start !in r.taken ==> IsFirst(r.stored[r.start]))
    && (forall n :: n in r.taken ==> r.start <= n && n in r.stored)
  }

  lemma {:induction false} UnreadIsGood(r: Rcv, n: int)
    requires MessagesInOrder(r) && r.start <= n && n !in r.taken && (n < r.lastAck ==> n in r.stored)
    ensures GoodFrom(r.stored, r.taken, n, r.lastAck)
    decreases r.lastAck - n
  {
    if n < r.lastAck && !IsLast(r.stored[n]) {
      if n + 1 < r.lastAck {
        assert n + 1 in r.stored;
        UnreadIsGood(r, n + 1);
      }
    }
  }

  /** For such packets, what the code releases at the front is exactly what has been read. */
  lemma {:induction false} SkipIsSkipTaken(r: Rcv)
    requires MessagesInOrder(r)
    ensures AfterSkip(r) == SkipTaken(r)
    decreases r.lastAck - r.start
  {
    hide GoodFrom, SkipBad;
    if r.start < r.lastAck && r.start in r.taken {
      var r1 := r.(start := r.start + 1, taken := r.taken - {r.start});
      assert r.start in r.stored;
      StepKeepsMessages(r, r1);
      SkipBadStep(r.stored, r.taken, r.start, r.lastAck);
      SkipIsSkipTaken(r1);
      var base := SkipBad(r1.stored, r1.taken, r1.start, r1.lastAck);
      if r1.start <= r1.lastAck {
        SkipBadRange(r1.stored, r1.taken, r1.start, r1.lastAck);
      }
      assert (set n | n in r.taken && n >= base) == set n | n in r1.taken && n >= base;
    } else {
      if r.start < r.lastAck {
        assert r.start in r.stored;
        UnreadIsGood(r, r.start);
      }
      SkipBadStep(r.stored, r.taken, r.start, r.lastAck);
      assert r.taken == set n | n in r.taken && n >= r.start;
    }
  }

  /** Reading leaves the packets in order: releasing what has been read, */
  lemma {:induction false} SkipKeepsMessages(r: Rcv)
    requires MessagesInOrder(r)
    ensures MessagesInOrder(SkipTaken(r))
    decreases r.lastAck - r.start
  {
    if r.start < r.lastAck && r.start in r.taken {
      var r1 := r.(start := r.start + 1, taken := r.taken - {r.start});
      StepKeepsMessages(r, r1);
      SkipKeepsMessages(r1);
    }
  }

  lemma StepKeepsMessages(r: Rcv, r1: Rcv)
    requires MessagesInOrder(r) && r.start < r.lastAck && r.start in r.taken
    requires r1 == r.(start := r.start + 1, taken := r.taken - {r.start})
    ensures MessagesInOrder(r1)
  {
    assert r.start in r.stored;
    if r1.start in r1.stored && r1.start !in r1.taken {
      assert IsLast(r.stored[r.start]);
      assert IsFirst(r.stored[r1.start]);
    }
  }

  /** and taking a whole message. */
  lemma TakeKeepsMessages(r: Rcv, p: int, q: int, len: nat)
    requires MessagesInOrder(r) && Deliverable(r, p, q) && (q < r.lastAck ==> p == r.start)
    ensures MessagesInOrder(Take(r, p, q, len))
  {
    hide Slice, Bytes, Truncated;
    var r' := Take(r, p, q, len);
    forall n, m | r'.start <= n && m == n + 1 && n in r.stored && m in r.stored && !IsLast(r.stored[n])
      ensures n in r'.taken <==> m in r'.taken
    {
      assert n in r.taken <==> m in r.taken;
      assert IsFirst(r.stored[m]) <==> IsLast(r.stored[n]);
    }
    assert q in r.stored && IsLast(r.stored[q]);
    assert forall n :: r'.start <= n < r'.lastAck ==> n in r'.stored;
    if q < r.lastAck && q + 1 in r.stored {
      assert IsFirst(r.stored[q + 1]);
    }
  }
}
