/**
 Points in time as seconds and microseconds, and periods in milliseconds.  Periods are
 32 bits wide; the arithmetic on them is written with its wrap-around.
 */
module TimeVal {

  type cms = n: int | -0x8000_0000 <= n < 0x8000_0000

  const MSEC_PER_SEC := 1000
  const USEC_PER_MSEC := 1000
  const USEC_PER_SEC := 1000000

  datatype Timeval = Timeval(sec: int, usec: int)

  // ----- arithmetic of the machine

  /** Division that rounds toward zero. */
  function Quot(n: int, d: int): int
    requires d > 0
  {
    if n >= 0 then n / d else -(-n / d)
  }

  /** The remainder that goes with it has the sign of n. */
  function Rem(n: int, d: int): int
    requires d > 0
  {
    n - d * Quot(n, d)
  }

  function Int32(n: int): (r: cms)
    ensures -0x8000_0000 <= n < 0x8000_0000 ==> r == n
  {
    (n + 0x8000_0000) % 0x1_0000_0000 - 0x8000_0000
  }

  function Min(a: cms, b: cms): cms {
    if a < b then a else b
  }

  function Max(a: cms, b: cms): cms {
    if a > b then a else b
  }

  /** A delay is not negative. */
  function Clamped(c: cms): cms {
    Max(c, 0)
  }

  // ----- the operations

  predicate Normal(tv: Timeval) {
    0 <= tv.usec < USEC_PER_SEC
  }

  function Micros(tv: Timeval): int {
    tv.sec * USEC_PER_SEC + tv.usec
  }

  /** The time `c` milliseconds after `now`. */
  function After(now: Timeval, c: cms): Timeval {
    var sec := now.sec + Quot(c, MSEC_PER_SEC);
    var rest := c - Quot(c, MSEC_PER_SEC) * MSEC_PER_SEC;
    var usec := now.usec + Rem(rest, MSEC_PER_SEC) * MSEC_PER_SEC;
    Timeval(sec + Quot(usec, USEC_PER_SEC), Rem(usec, USEC_PER_SEC))
  }

  method ConvertCmsToTimeval(now: Timeval, c: cms) returns (tv: Timeval)
    ensures tv == After(now, c)
  {
    var rest: int := c;
    tv := now;
    tv := tv.(sec := tv.sec + Quot(rest, MSEC_PER_SEC));
    rest := rest - Quot(rest, MSEC_PER_SEC) * MSEC_PER_SEC;
    tv := tv.(usec := tv.usec + Rem(rest, MSEC_PER_SEC) * MSEC_PER_SEC);
    tv := tv.(sec := tv.sec + Quot(tv.usec, USEC_PER_SEC));
    tv := tv.(usec := Rem(tv.usec, USEC_PER_SEC));
  }

  /** The period before it is cut to 32 bits. */
  function RawPeriod(lhs: Timeval, rhs: Timeval): int {
    (lhs.sec - rhs.sec) * MSEC_PER_SEC + Quot(lhs.usec - rhs.usec, USEC_PER_MSEC)
  }

  function Period(lhs: Timeval, rhs: Timeval): cms {
    var whole := Int32(Int32(lhs.sec - rhs.sec) * MSEC_PER_SEC);
    Int32(whole + Quot(Int32(lhs.usec - rhs.usec), USEC_PER_MSEC))
  }

  function TimeLeft(tv: Timeval, now: Timeval): (left: cms)
    ensures left >= 0
  {
    var period := Period(tv, now);
    if period < 0 then 0 else period
  }

  /** No intermediate value needs more than 32 bits ... or the bits it loses do not matter in the end. */
  predicate Fits(lhs: Timeval, rhs: Timeval) {
    -0x8000_0000 <= RawPeriod(lhs, rhs) < 0x8000_0000
  }

  // ----- what they mean

  lemma Wraps(n: int)
    ensures exists k: int :: Int32(n) == n + k * 0x1_0000_0000
  {
    var k := -((n + 0x8000_0000) / 0x1_0000_0000);
    assert Int32(n) == n + k * 0x1_0000_0000;
  }

  lemma WrapsOnce(n: int, k: int)
    ensures Int32(n + k * 0x1_0000_0000) == Int32(n)
  {
    var m := n + 0x8000_0000;
    var q := m / 0x1_0000_0000;
    assert (m + k * 0x1_0000_0000) / 0x1_0000_0000 == q + k;
  }

  /** Cutting at every step gives the same as cutting once at the end. */
  lemma PeriodIsCutOnce(lhs: Timeval, rhs: Timeval)
    requires Normal(rhs) && -USEC_PER_SEC < lhs.usec < USEC_PER_SEC
    ensures Period(lhs, rhs) == Int32(RawPeriod(lhs, rhs))
  {
    hide Int32;
    var d := lhs.sec - rhs.sec;
    Wraps(d);
    var j: int :| Int32(d) == d + j * 0x1_0000_0000;
    Wraps(Int32(d) * 1000);
    var k: int :| Int32(Int32(d) * 1000) == Int32(d) * 1000 + k * 0x1_0000_0000;
    WrapsOnce(RawPeriod(lhs, rhs), j * 1000 + k);
  }

  /** Moving by c milliseconds is exact, also backwards, and a normal time stays normal when moved forwards. */
  lemma AfterIsExact(now: Timeval, c: cms)
    ensures Micros(After(now, c)) == Micros(now) + c * USEC_PER_MSEC
    ensures Normal(now) && c >= 0 ==> Normal(After(now, c))
  {
  }

  /** A delay is kept to the microsecond, unless it is negative. */
  lemma DelayIsExact(now: Timeval, c: cms)
    ensures c >= 0 ==> Micros(After(now, Clamped(c))) == Micros(now) + 1000 * c
    ensures c < 0 ==> Micros(After(now, Clamped(c))) == Micros(now)
    ensures Normal(now) ==> Normal(After(now, Clamped(c)))
  {
    hide After;
    AfterIsExact(now, Clamped(c));
  }

  lemma RawOfAfter(now: Timeval, c: cms)
    requires Normal(now)
    ensures RawPeriod(After(now, c), now) == c
  {
    var a := After(now, c);
    AfterIsExact(now, c);
    var d := a.sec - now.sec;
    assert a.usec - now.usec == 1000 * (c - d * 1000);
  }

  /** For every 32-bit period, also a negative one and one whose whole seconds overflow on the way. */
  lemma PeriodUndoesAfter(now: Timeval, c: cms)
    requires Normal(now)
    ensures Period(After(now, c), now) == c
  {
    RawOfAfter(now, c);
    AfterIsExact(now, c);
    PeriodIsCutOnce(After(now, c), now);
  }

  /** The period is within a millisecond of the true difference, for exactly the pairs that fit. */
  lemma PeriodIsClose(lhs: Timeval, rhs: Timeval)
    requires Normal(lhs) && Normal(rhs)
    ensures var error := USEC_PER_MSEC * Period(lhs, rhs) - (Micros(lhs) - Micros(rhs));
            -USEC_PER_MSEC < error < USEC_PER_MSEC <==> Fits(lhs, rhs)
  {
    PeriodIsCutOnce(lhs, rhs);
    Wraps(RawPeriod(lhs, rhs));
  }

  lemma RawMonotone(a: Timeval, b: Timeval, now: Timeval)
    requires Normal(a) && Normal(b) && Normal(now)
    requires Micros(a) <= Micros(b)
    ensures RawPeriod(a, now) <= RawPeriod(b, now)
  {
    if a.sec == b.sec {
      QuotMonotone(a.usec - now.usec, b.usec - now.usec);
    } else {
      assert a.sec < b.sec;
      assert -999 <= Quot(a.usec - now.usec, 1000) <= 999;
      assert -999 <= Quot(b.usec - now.usec, 1000) <= 999;
      if b.sec == a.sec + 1 {
        assert Quot(a.usec - now.usec, 1000) <= Quot(b.usec - now.usec, 1000) + 1000;
      }
    }
  }

  lemma QuotMonotone(m: int, n: int)
    requires m <= n
    ensures Quot(m, 1000) <= Quot(n, 1000)
  {
  }

  /** Truncation toward zero keeps the order. */
  lemma PeriodMonotone(a: Timeval, b: Timeval, now: Timeval)
    requires Normal(a) && Normal(b) && Normal(now)
    requires Fits(a, now) && Fits(b, now)
    requires Micros(a) <= Micros(b)
    ensures Period(a, now) <= Period(b, now)
    ensures TimeLeft(a, now) <= TimeLeft(b, now)
  {
    RawMonotone(a, b, now);
    PeriodIsCutOnce(a, now);
    PeriodIsCutOnce(b, now);
  }

  /** The time left when nothing is cut. */
  function TrueLeft(tv: Timeval, now: Timeval): nat {
    if RawPeriod(tv, now) < 0 then 0 else RawPeriod(tv, now)
  }

  lemma TrueLeftMonotone(a: Timeval, b: Timeval, now: Timeval)
    requires Normal(a) && Normal(b) && Normal(now)
    requires Compare(a, b) <= 0
    ensures TrueLeft(a, now) <= TrueLeft(b, now)
  {
    hide RawPeriod;
    CompareIsMicros(a, b);
    RawMonotone(a, b, now);
  }

  /**
     A delay is over for the code only when less than a millisecond of it is left, and it is
     over from its end on until 2^31 milliseconds later.
     */
  lemma DueWhenOver(start: Timeval, c: cms, now: Timeval)
    requires Normal(start) && Normal(now) && Micros(start) <= Micros(now)
    ensures var end := Micros(start) + (if c < 0 then 0 else 1000 * c);
            && (TimeLeft(After(start, Clamped(c)), now) == 0 ==> Micros(now) > end - 1000)
            && (end <= Micros(now) <= end + 1000 * 0x7fff_ffff ==> TimeLeft(After(start, Clamped(c)), now) == 0)
  {
    hide After, Period, RawPeriod;
    var date := After(start, Clamped(c));
    DelayIsExact(start, c);
    PeriodIsCutOnce(date, now);
    RawIsClose(date, now);
  }

  lemma RawIsClose(lhs: Timeval, rhs: Timeval)
    requires Normal(lhs) && Normal(rhs)
    ensures -1000 < 1000 * RawPeriod(lhs, rhs) - (Micros(lhs) - Micros(rhs)) < 1000
    ensures Micros(lhs) > Micros(rhs) ==> RawPeriod(lhs, rhs) >= 0
    ensures Micros(lhs) <= Micros(rhs) ==> RawPeriod(lhs, rhs) <= 0
  {
  }

  lemma CutIsLess(n: int)
    ensures n >= 0 ==> Int32(n) <= n
  {
  }

  /** Cutting does not make the time left longer. */
  predicate NotLonger(tv: Timeval, now: Timeval) {
    RawPeriod(tv, now) >= 0 || Period(tv, now) <= 0
  }

  /** Cutting does not change the time left, as far as it is at most `limit`. */
  predicate SameUpTo(tv: Timeval, now: Timeval, limit: cms) {
    if RawPeriod(tv, now) < 0 then Period(tv, now) <= 0
    else RawPeriod(tv, now) < 0x8000_0000 || Period(tv, now) >= limit
  }

  /** Cutting does not change whether the time has come. */
  predicate SameDue(tv: Timeval, now: Timeval) {
    RawPeriod(tv, now) <= 0 <==> Period(tv, now) <= 0
  }

  lemma CutLeft(tv: Timeval, now: Timeval, limit: cms)
    requires Normal(tv) && Normal(now) && limit > 0
    ensures var left := Min(limit, TimeLeft(tv, now));
            && (left <= TrueLeft(tv, now) <==> NotLonger(tv, now))
            && (left == (if TrueLeft(tv, now) < limit then TrueLeft(tv, now) else limit) <==> SameUpTo(tv, now, limit))
    ensures (TimeLeft(tv, now) == 0 <==> TrueLeft(tv, now) == 0) <==> SameDue(tv, now)
  {
    hide RawPeriod, Period, Int32;
    PeriodIsCutOnce(tv, now);
    CutIsLess(RawPeriod(tv, now));
  }

  /** Overdue by 2147484 seconds a time seems to lie almost 25 days ahead. */
  lemma LongOverdueLooksAhead()
    ensures Period(Timeval(0, 0), Timeval(2147484, 0)) == 2147483296
  {
    hide Int32;
    assert Int32(-2147484000) == 2147483296 by { Cut(); }
  }

  lemma Cut()
    ensures Int32(-2147484000) == 2147483296
  {
  }

  // ----- order

  /** The comparison of two times: seconds first. */
  function Compare(lhs: Timeval, rhs: Timeval): int {
    if lhs.sec > rhs.sec then 1
    else if lhs.sec < rhs.sec then -1
    else if lhs.usec > rhs.usec then 1
    else if lhs.usec < rhs.usec then -1
    else 0
  }

  lemma CompareIsMicros(lhs: Timeval, rhs: Timeval)
    requires Normal(lhs) && Normal(rhs)
    ensures Compare(lhs, rhs) > 0 <==> Micros(lhs) > Micros(rhs)
    ensures Compare(lhs, rhs) == 0 <==> lhs == rhs
    ensures lhs == rhs <==> Micros(lhs) == Micros(rhs)
  {
  }
}
