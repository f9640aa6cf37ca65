/**
 Deadlines on timespecs: normalisation, missed-deadline counting, signed addition with C's
 truncating division, and exact comparison.  Integers are unbounded here; seconds held in a
 double are taken as reals, except in module Rounding.
 */
module Timespec {
  const NSEC: int := 1_000_000_000

  // ----- C's integer division

  /** C's a / b: rounds toward zero. */
  function CDiv(a: int, b: int): int
    requires b != 0
  {
    if a >= 0 then (if b > 0 then a / b else -(a / -b))
    else (if b > 0 then -(-a / b) else -a / -b)
  }

  /** C's a % b: has the sign of a. */
  function CMod(a: int, b: int): int
    requires b != 0
  {
    a - CDiv(a, b) * b
  }

  function Abs(x: int): nat { if x < 0 then -x else x }

  /** The standard's characterisation, which determines quotient and remainder. */
  lemma CDivMod(a: int, b: int)
    requires b != 0
    ensures a == CDiv(a, b) * b + CMod(a, b)
    ensures Abs(CMod(a, b)) < Abs(b)
    ensures CMod(a, b) > 0 ==> a > 0
    ensures CMod(a, b) < 0 ==> a < 0
  {
    NatDivMod(Abs(a), Abs(b));
    Negated(Abs(a) / Abs(b), Abs(b));
  }

  lemma NatDivMod(n: nat, d: nat)
    requires d > 0
    ensures 0 <= n - n / d * d < d
  {
    assert n == n / d * d + n % d;
  }

  lemma Negated(q: int, d: int)
    ensures -q * d == -(q * d) && q * -d == -(q * d) && -q * -d == q * d
  {
  }

  lemma CDivBounds(a: int, b: int)
    requires b > 0
    ensures Abs(CDiv(a, b)) * b <= Abs(a) < (Abs(CDiv(a, b)) + 1) * b
  {
    var n := Abs(a);
    assert n == n / b * b + n % b;
    assert Abs(CDiv(a, b)) == n / b;
  }

  lemma Sign(x: int, p: int)
    requires p > 0
    ensures x >= 0 ==> x * p >= 0
    ensures x < 0 ==> x * p < 0
  {
  }

  lemma Scale(a: int, b: int, p: int)
    requires p > 0
    ensures a <= b <==> a * p <= b * p
  {
    Sign(b - a, p);
    assert (b - a) * p == b * p - a * p;
  }

  // ----- Timespecs

  datatype Time = Time(sec: int, nsec: int)

  /** The instant a timespec denotes, in nanoseconds. */
  function Total(t: Time): int { t.sec * NSEC + t.nsec }

  predicate Canonical(t: Time) { 0 <= t.nsec < NSEC }

  class TimespecCell {
    var sec: int
    var nsec: int

    function Value(): Time
      reads this
    {
      Time(sec, nsec)
    }

    constructor (t: Time)
      ensures Value() == t
    {
      sec, nsec := t.sec, t.nsec;
    }
  }

  class PeriodInfo {
    const nextPeriod: TimespecCell
    var periodNs: int

    constructor (next: Time, periodNs: int)
      ensures fresh(nextPeriod) && nextPeriod.Value() == next && this.periodNs == periodNs
    {
      nextPeriod := new TimespecCell(next);
      this.periodNs := periodNs;
    }
  }

  /** A timespec in seconds, as timer_inc_period computes it. */
  function Seconds(t: Time): real { t.sec as real + t.nsec as real / 1000000000.0 }

  lemma SecondsOrder(a: Time, b: Time)
    ensures Seconds(a) < Seconds(b) <==> Total(a) < Total(b)
    ensures Seconds(a) == Seconds(b) <==> Total(a) == Total(b)
  {
    assert Seconds(a) * 1000000000.0 == Total(a) as real;
    assert Seconds(b) * 1000000000.0 == Total(b) as real;
  }

  // ----- timer_inc_period, first overload

  /** The deadline m periods after the first addition. */
  function Later(total: int, period: int, m: int): int { total + (m + 1) * period }

  /**
   The loop comes to an end: the period moves the deadline forward, or the first addition is
   already enough.
   */
  predicate CatchesUp(total: int, period: int, now: int) {
    period > 0 || total + period >= now
  }

  /** Otherwise no number of additions ever reaches now, so the source would not return. */
  lemma NeverCatchesUpOtherwise(total: int, period: int, now: int)
    ensures CatchesUp(total, period, now) <==> exists m: nat :: Later(total, period, m) >= now
  {
    if CatchesUp(total, period, now) {
      var m: nat := if total + period >= now then 0 else now - total;
      if m > 0 {
        Scale(1, period, m + 1);
      }
      assert Later(total, period, m) >= now;
    } else {
      forall m: nat ensures Later(total, period, m) < now {
        Scale(period, 0, m + 1);
        assert m * period <= 0;
      }
    }
  }

  /** The number of missed deadlines is forced: it is the least that reaches now. */
  predicate Missed(total: int, period: int, now: int, missed: int) {
    && missed >= 0
    && Later(total, period, missed) >= now
    && forall m :: 0 <= m < missed ==> Later(total, period, m) < now
  }

  /** The seconds take no part until the nanoseconds are no longer negative; then the timespec is canonical. */
  predicate Carried(t: Time, added: int, u: Time) {
    if t.nsec + added < 0 then u.sec == t.sec else Canonical(u)
  }

  /** With period 0 a deadline in the past is never left. */
  lemma PeriodZeroNeverReturns()
    ensures !CatchesUp(0, 0, 1)
    ensures forall m: nat :: Later(0, 0, m) < 1
  {
  }

  /**
   Moves the deadline by whole periods until it is not before `act`; returns how many periods
   beyond the first that took.  `act` is what clock_gettime reads.
   */
  method TimerIncPeriod(pinfo: PeriodInfo, act: Time) returns (missed: int)
    requires CatchesUp(Total(pinfo.nextPeriod.Value()), pinfo.periodNs, Total(act))
    modifies pinfo.nextPeriod
    ensures Missed(old(Total(pinfo.nextPeriod.Value())), pinfo.periodNs, Total(act), missed)
    ensures Total(pinfo.nextPeriod.Value())
         == Later(old(Total(pinfo.nextPeriod.Value())), pinfo.periodNs, missed)
    ensures if old(pinfo.nextPeriod.nsec) + (missed + 1) * pinfo.periodNs < 0
            then pinfo.nextPeriod.sec == old(pinfo.nextPeriod.sec)
            else Canonical(pinfo.nextPeriod.Value())
  {
    missed := -1;
    var at := Seconds(act);
    var nt := 0.0;
    var next := pinfo.nextPeriod;
    var period := pinfo.periodNs;
    ghost var start := Total(next.Value());
    ghost var now := Total(act);
    while true
      invariant missed >= -1
      invariant Total(next.Value()) == Later(start, period, missed)
      invariant forall m :: 0 <= m <= missed ==> Later(start, period, m) < now
      invariant missed == -1 ==> next.sec == old(next.sec)
      invariant missed >= 0 ==> Carried(old(next.Value()), (missed + 1) * period, next.Value())
      invariant missed >= 0 ==> period > 0
      decreases if missed < 0 then 1 else 0, now - Total(next.Value())
    {
      ghost var before, sum := Total(next.Value()), next.nsec + period;
      ghost var sec := next.sec;
      missed := missed + 1;
      next.nsec := next.nsec + period;
      while next.nsec >= NSEC
        invariant Total(next.Value()) == before + period
        invariant if sum < 0 then next.nsec == sum && next.sec == sec else next.nsec >= 0
        decreases next.nsec
      {
        next.sec := next.sec + 1;
        next.nsec := next.nsec - NSEC;
      }
      nt := Seconds(next.Value());
      SecondsOrder(next.Value(), act);
      assert (missed + 1) * period == missed * period + period;
      if !(nt < at) { break; }
    }
  }

  /** The closed form of reaching: m periods after the first are enough from a quotient on. */
  lemma Reaches(total: int, period: int, now: int, m: int)
    requires period > 0
    ensures Later(total, period, m) >= now <==> m >= (now - total - 1) / period
  {
    var q, r := (now - total - 1) / period, (now - total - 1) % period;
    assert now - total == q * period + r + 1;
    assert (q + 1) * period == q * period + period;
    Scale(q + 1, m + 1, period);
    Scale(m + 1, q, period);
  }

  function Max(a: int, b: int): int { if a < b then b else a }

  lemma MissedExactly(total: int, period: int, now: int, missed: int)
    requires period > 0
    ensures Missed(total, period, now, missed) <==> missed == Max(0, (now - total - 1) / period)
  {
    forall m: int ensures Later(total, period, m) >= now <==> m >= (now - total - 1) / period {
      Reaches(total, period, now, m);
    }
    if Missed(total, period, now, missed) && missed > 0 {
      assert Later(total, period, missed - 1) < now;
    }
  }

  // ----- Runs of the first overload

  /** The deadline after one call made at `now`. */
  function NextDeadline(total: int, period: int, now: int): int
    requires period > 0
  {
    total + (Max(0, (now - total - 1) / period) + 1) * period
  }

  /** The deadline after calls made at the given times. */
  function Deadline(total: int, period: int, nows: seq<int>): int
    requires period > 0
  {
    if nows == [] then total
    else NextDeadline(Deadline(total, period, nows[..|nows| - 1]), period, nows[|nows| - 1])
  }

  /** One call keeps the phase and lands on the first deadline that is later and not before now. */
  lemma NextDeadlineIsLeast(total: int, period: int, now: int, k: int)
    requires period > 0
    ensures NextDeadline(total, period, now) > total && NextDeadline(total, period, now) >= now
    ensures total + k * period > total && total + k * period >= now ==>
              NextDeadline(total, period, now) <= total + k * period
  {
    var missed := Max(0, (now - total - 1) / period);
    Reaches(total, period, now, missed);
    Reaches(total, period, now, k - 1);
    Scale(1, missed + 1, period);
    Scale(k, 0, period);
    Scale(missed + 1, k, period);
  }

  /** The misses reported by those calls, added up. */
  function AllMissed(total: int, period: int, nows: seq<int>): int
    requires period > 0
  {
    if nows == [] then 0
    else
      var d := Deadline(total, period, nows[..|nows| - 1]);
      AllMissed(total, period, nows[..|nows| - 1]) + Max(0, (nows[|nows| - 1] - d - 1) / period)
  }

  /**
   No drift: whenever the calls are made, the deadline is the first one plus one period a
   call and one for every miss ever reported.
   */
  lemma {:induction false} DeadlinesNeverDrift(total: int, period: int, nows: seq<int>)
    requires period > 0
    ensures AllMissed(total, period, nows) >= 0
    ensures Deadline(total, period, nows) == total + (|nows| + AllMissed(total, period, nows)) * period
  {
    if nows != [] {
      var before, now := nows[..|nows| - 1], nows[|nows| - 1];
      DeadlinesNeverDrift(total, period, before);
      var d := Deadline(total, period, before);
      var k, step := |before| + AllMissed(total, period, before), Max(0, (now - d - 1) / period) + 1;
      assert k * period + step * period == (k + step) * period;
    }
  }

  /** What TimerIncPeriod leaves behind is one step of such a run, and its count one term of it. */
  lemma IncPeriodIsNextDeadline(total: int, period: int, now: int, missed: int)
    requires period > 0 && Missed(total, period, now, missed)
    ensures Later(total, period, missed) == NextDeadline(total, period, now)
    ensures missed == Max(0, (now - total - 1) / period)
  {
    MissedExactly(total, period, now, missed);
  }

  // ----- timer_add and the offset overload

  /** timer_add: the excess is carried only above, not at, one second, and never borrowed. */
  function Added(t: Time, addtime: int): Time {
    var nsec := CMod(addtime, NSEC);
    var u := Time(t.sec + CDiv(addtime - nsec, NSEC), t.nsec + nsec);
    if u.nsec > NSEC then
      var rest := CMod(u.nsec, NSEC);
      Time(u.sec + CDiv(u.nsec - rest, NSEC), rest)
    else u
  }

  lemma MultipleDivides(q: int)
    ensures CDiv(q * NSEC, NSEC) == q
  {
    CDivMod(q * NSEC, NSEC);
  }

  /** The whole seconds and the remainder of a number add up to it. */
  lemma SplitSeconds(x: int)
    ensures CDiv(x - CMod(x, NSEC), NSEC) * NSEC + CMod(x, NSEC) == x
  {
    CDivMod(x, NSEC);
    MultipleDivides(CDiv(x, NSEC));
  }

  /** Conservation: the instant moves by exactly addtime, for every timespec and every sign. */
  lemma AddConserves(t: Time, addtime: int)
    ensures Total(Added(t, addtime)) == Total(t) + addtime
  {
    SplitSeconds(addtime);
    var u := Time(t.sec + CDiv(addtime - CMod(addtime, NSEC), NSEC), t.nsec + CMod(addtime, NSEC));
    assert Total(u) == Total(t) + addtime;
    SplitSeconds(u.nsec);
  }

  /**
   When the result is canonical: from a canonical timespec, exactly if the sum of the
   nanoseconds is neither negative (no borrow) nor one second sharp (no carry).
   */
  lemma AddCanonicalExactly(t: Time, addtime: int)
    requires Canonical(t)
    ensures -NSEC < Added(t, addtime).nsec <= NSEC
    ensures addtime >= 0 ==> Added(t, addtime).nsec >= 0
    ensures Canonical(Added(t, addtime)) <==>
            t.nsec + CMod(addtime, NSEC) >= 0 && t.nsec + CMod(addtime, NSEC) != NSEC
  {
    CDivMod(addtime, NSEC);
    var sum := t.nsec + CMod(addtime, NSEC);
    if sum > NSEC {
      CDivMod(sum, NSEC);
      assert CMod(sum, NSEC) >= 0;
    }
  }

  /**
   The fields it leaves, from every timespec: the whole seconds of addtime go to the seconds
   and its remainder to the nanoseconds, unless that takes them beyond one second; then the
   result is canonical.
   */
  lemma AddFields(t: Time, addtime: int, r: int)
    requires Abs(r) < NSEC && (r > 0 ==> addtime > 0) && (r < 0 ==> addtime < 0)
    requires exists q: int :: addtime == q * NSEC + r
    ensures var u := Added(t, addtime);
            && u.sec * NSEC + u.nsec == t.sec * NSEC + t.nsec + addtime
            && (t.nsec + r <= NSEC ==> u.nsec == t.nsec + r)
            && (t.nsec + r > NSEC ==> 0 <= u.nsec < NSEC)
  {
    AddConserves(t, addtime);
    RemainderIsUnique(addtime, r);
    if t.nsec + r > NSEC {
      CDivMod(t.nsec + r, NSEC);
    }
  }

  /** C's remainder is the only number congruent to x, of its sign, and smaller than a second. */
  lemma RemainderIsUnique(x: int, r: int)
    requires Abs(r) < NSEC && (r > 0 ==> x > 0) && (r < 0 ==> x < 0)
    requires exists q: int :: x == q * NSEC + r
    ensures CMod(x, NSEC) == r
  {
    CDivMod(x, NSEC);
    var q: int :| x == q * NSEC + r;
    assert (q - CDiv(x, NSEC)) * NSEC == CMod(x, NSEC) - r;
  }

  /** Twice half a second is left at one second; the next addition carries it. */
  lemma AddCarriesLate()
    ensures Added(Added(Time(0, 500_000_000), 500_000_000), 500_000_000) == Time(1, 500_000_000)
  {
  }

  /** Both ways to miss: half a second plus half a second, and one second less a nanosecond. */
  lemma AddLeavesRange()
    ensures Added(Time(0, 500_000_000), 500_000_000) == Time(0, 1_000_000_000)
    ensures Added(Time(1, 0), -1) == Time(1, -1)
  {
  }

  method TimerAdd(ts: TimespecCell, addtime: int)
    modifies ts
    ensures ts.Value() == Added(old(ts.Value()), addtime)
    ensures Total(ts.Value()) == old(Total(ts.Value())) + addtime
    ensures var sum := old(ts.nsec) + CMod(addtime, NSEC);
            if sum <= NSEC then ts.nsec == sum else Canonical(ts.Value())
  {
    AddConserves(ts.Value(), addtime);
    CDivMod(addtime, NSEC);
    AddFields(ts.Value(), addtime, CMod(addtime, NSEC));
    var nsec := CMod(addtime, NSEC);
    var sec := CDiv(addtime - nsec, NSEC);
    ts.sec := ts.sec + sec;
    ts.nsec := ts.nsec + nsec;
    if ts.nsec > NSEC {
      nsec := CMod(ts.nsec, NSEC);
      ts.sec := ts.sec + CDiv(ts.nsec - nsec, NSEC);
      ts.nsec := nsec;
    }
  }

  const U32: int := 0x1_0000_0000
  const U64: int := 0x1_0000_0000_0000_0000

  /** timer_difference_s */
  function DifferenceSeconds(a: Time, b: Time): real {
    (a.nsec - b.nsec) as real / 1000000000.0 + (a.sec - b.sec) as real
  }

  lemma DifferenceSecondsExact(a: Time, b: Time)
    ensures DifferenceSeconds(a, b) * 1000000000.0 == (Total(a) - Total(b)) as real
  {
  }

  predicate IsInt64(x: int) { -0x8000_0000_0000_0000 <= x < 0x8000_0000_0000_0000 }

  /** `uint64_t(d * 1e9) / period` as a uint32_t, for d * 1e9 equal to `back` nanoseconds. */
  function MissedCount(back: int, period: int): int
    requires back > 0 ==> period % U64 != 0
  {
    if back > 0 then back % U64 / (period % U64) % U32 else 0
  }

  method CountPeriods(d: real, period: int, ghost back: int) returns (count: int)
    requires d * 1000000000.0 == back as real && (back > 0 ==> period % U64 != 0)
    ensures count == MissedCount(back, period)
  {
    if d > 0.0 {
      FloorExact(d * 1000000000.0, back);
      count := (d * 1000000000.0).Floor % U64 / (period % U64) % U32;
    } else {
      count := 0;
    }
  }

  /**
   The offset overload.  Its difference is taken from the old deadline to the new one with
   the operands swapped, so it is positive only if the deadline moved back; the period is
   converted to an unsigned number before the division, which must not be by zero.
   */
  method TimerIncPeriodOffset(pinfo: PeriodInfo, offset: int) returns (count: int)
    requires IsInt64(pinfo.periodNs) && IsInt64(pinfo.periodNs + offset)
    requires pinfo.periodNs + offset < 0 ==> pinfo.periodNs != 0
    modifies pinfo.nextPeriod
    ensures pinfo.nextPeriod.Value() == Added(old(pinfo.nextPeriod.Value()), pinfo.periodNs + offset)
    ensures Total(pinfo.nextPeriod.Value()) == old(Total(pinfo.nextPeriod.Value())) + pinfo.periodNs + offset
    ensures count == MissedCount(-(pinfo.periodNs + offset), pinfo.periodNs)
  {
    var before := pinfo.nextPeriod.Value();
    TimerAdd(pinfo.nextPeriod, pinfo.periodNs + offset);
    var d := DifferenceSeconds(before, pinfo.nextPeriod.Value());
    DifferenceSecondsExact(before, pinfo.nextPeriod.Value());
    count := CountPeriods(d, pinfo.periodNs, -(pinfo.periodNs + offset));
  }

  lemma FloorExact(r: real, n: int)
    requires r == n as real
    ensures r.Floor == n
  {
  }

  /**
   So no missed period is ever reported for a deadline that moves forward, and a positive
   count means that the offset took the deadline back by a whole period or more - a number of
   them, that is, which does not wrap to 0.
   */
  lemma CountMeansMovingBack(period: int, offset: int)
    requires period > 0 && IsInt64(period) && IsInt64(period + offset)
    ensures MissedCount(-(period + offset), period) > 0 <==>
            offset <= -2 * period && -(period + offset) / period % U32 != 0
  {
    var b := -(period + offset);
    if b > 0 {
      Quotient(b, period);
      CountIsQuotient(b, period);
    }
  }

  /** Its value for a positive period: the whole periods the deadline moved back, modulo 2^32. */
  lemma CountIsPeriodsBack(period: int, offset: int, k: int)
    requires period > 0 && IsInt64(period) && IsInt64(period + offset)
    requires k >= 0 && k * period <= -(period + offset) < (k + 1) * period
    ensures MissedCount(-(period + offset), period) == k % 0x1_0000_0000
  {
    var b := -(period + offset);
    QuotientIs(b, period, k);
    if b > 0 {
      CountIsQuotient(b, period);
    }
  }

  lemma QuotientIs(b: int, p: int, k: int)
    requires p > 0 && k >= 0 && k * p <= b < (k + 1) * p
    ensures b >= 0 && b / p == k
  {
    assert b == b / p * p + b % p;
    assert (b / p + 1) * p == b / p * p + p;
    Scale(b / p + 1, k, p);
    Scale(k + 1, b / p, p);
    Scale(0, k, p);
  }

  /**
   A negative period becomes a huge unsigned one, which only the longest way back contains, once;
   with period 0 the deadline must not move back, and nothing is counted.
   */
  lemma CountForOtherPeriods(period: int, offset: int)
    requires period <= 0 && IsInt64(period) && IsInt64(period + offset)
    requires period + offset < 0 ==> period != 0
    ensures MissedCount(-(period + offset), period) ==
            if period == -0x8000_0000_0000_0000 && offset == 0 then 1 else 0
  {
    var b := -(period + offset);
    if b > 0 {
      assert b % U64 == b;
      assert period % U64 == period + U64;
      QuotientIs(b, period + U64, if b < period + U64 then 0 else 1);
    }
  }

  /**
   Hence it is the number of periods the deadline moved forward less one, as that of the other
   overload is, exactly if that number is one; and it is the number itself exactly if that is 0.
   */
  lemma CountIsPeriodsExactly(period: int, offset: int)
    requires period > 0 && IsInt64(period) && IsInt64(period + offset)
    ensures var moved, count := CDiv(period + offset, period), MissedCount(-(period + offset), period);
            && (count == moved - 1 <==> 0 <= offset < period)
            && (count == moved <==> -2 * period < offset < 0)
  {
    var b := -(period + offset);
    if b > 0 {
      Quotient(b, period);
      CountIsQuotient(b, period);
    } else {
      Quotient(-b, period);
      Scale(2, -b / period, period);
      assert -b == -b / period * period + -b % period;
    }
  }

  /** Six periods forward, five of them skipped, count as 0; six periods back count as 6. */
  lemma SkippedPeriodsAreNotCounted()
    ensures CDiv(1000 + 5000, 1000) == 6 && MissedCount(-(1000 + 5000), 1000) == 0
    ensures CDiv(1000 - 7000, 1000) == -6 && MissedCount(-(1000 - 7000), 1000) == 6
  {
    CountIsQuotient(6000, 1000);
  }

  lemma CountIsQuotient(back: int, period: int)
    requires 0 < back < U64 && 0 < period < U64
    ensures MissedCount(back, period) == back / period % U32
  {
    assert back % U64 == back;
    assert period % U64 == period;
  }

  lemma Quotient(b: int, p: int)
    requires b >= 0 && p > 0
    ensures b / p >= 0 && (b / p > 0 <==> b >= p)
  {
    assert b == b / p * p + b % p;
    Scale(1, b / p, p);
    Scale(0, b / p, p);
  }

  /** The deadline after calls of the offset overload. */
  function OffsetRun(t: Time, period: int, offsets: seq<int>): Time {
    if offsets == [] then t
    else Added(OffsetRun(t, period, offsets[..|offsets| - 1]), period + offsets[|offsets| - 1])
  }

  function SumOf(xs: seq<int>): int {
    if xs == [] then 0 else SumOf(xs[..|xs| - 1]) + xs[|xs| - 1]
  }

  lemma Tally(first: int, total: int, n: int, period: int, sum: int, last: int)
    requires total == first + n * period + sum
    ensures total + (period + last) == first + (n + 1) * period + (sum + last)
  {
  }

  /** n calls move the deadline by exactly n periods and the sum of the offsets. */
  lemma {:induction false} OffsetRunConserves(t: Time, period: int, offsets: seq<int>)
    ensures Total(OffsetRun(t, period, offsets)) == Total(t) + |offsets| * period + SumOf(offsets)
  {
    if offsets != [] {
      var n := |offsets| - 1;
      OffsetRunConserves(t, period, offsets[..n]);
      var before := OffsetRun(t, period, offsets[..n]);
      AddConserves(before, period + offsets[n]);
      Tally(Total(t), Total(before), n, period, SumOf(offsets[..n]), offsets[n]);
    }
  }
}
