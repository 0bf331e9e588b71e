/** Positions in a circular array.  Stepping `d` places from position `h` is written without a
    remainder, so that proofs about positions stay linear; `StepIsRemainder` ties it to the
    `%` expressions of the source. */
module Ring {

  function Step(h: int, d: int, n: int): (p: int)
    ensures 0 <= h < n && -n < d < n ==> 0 <= p < n
  {
    if h + d >= n then h + d - n
    else if h + d < 0 then h + d + n
    else h + d
  }

  lemma StepTwice(h: int, d: int, e: int, n: int)
    requires 0 <= h < n && 0 <= d && 0 <= e && d + e < n
    ensures Step(Step(h, d, n), e, n) == Step(h, d + e, n)
  {
  }

  lemma RemainderIs(x: int, n: int, q: int, r: int)
    requires n > 0 && 0 <= r < n && x == q * n + r
    ensures x % n == r
  {
    assert x == (x / n) * n + x % n;
    assert (x / n - q) * n == r - x % n;
    SmallMultiple(x / n - q, n);
  }

  /** The only multiple of `n` strictly between `-n` and `n` is zero. */
  lemma SmallMultiple(d: int, n: int)
    requires n > 0 && -n < d * n < n
    ensures d == 0
  {
    if d >= 1 {
      MulMonotone(1, d, n);
    } else if d <= -1 {
      MulMonotone(d, -1, n);
    }
  }

  lemma MulMonotone(a: int, b: int, n: int)
    requires a <= b && n >= 0
    ensures a * n <= b * n
  {
  }

  lemma StepIsRemainder(h: int, d: int, n: int)
    requires 0 <= h < n && -n < d < n
    ensures (h + d + n) % n == Step(h, d, n)
    ensures d >= 0 ==> (h + d) % n == Step(h, d, n)
  {
    var x := h + d;
    if x >= n {
      RemainderIs(x + n, n, 2, x - n);
      RemainderIs(x, n, 1, x - n);
    } else if x >= 0 {
      RemainderIs(x + n, n, 1, x);
      RemainderIs(x, n, 0, x);
    } else {
      RemainderIs(x + n, n, 0, x + n);
    }
  }
}
