/**
 Differences and conversions of timespecs go through doubles.  Here a double operation on
 integers rounds its exact result to 53 significant bits, to nearest with ties to even, and
 the outcome is compared with exact nanoseconds.
 */
module Rounding {
  import opened Timespec

  const TWO52: int := 0x10_0000_0000_0000
  const TWO53: int := 0x20_0000_0000_0000
  const TWO62: int := 0x4000_0000_0000_0000

  /** The spacing of doubles at n: the least power of two u with n < 2^53 * u. */
  function Ulp(n: nat): (u: nat)
    ensures u >= 1
  {
    if n < TWO53 then 1 else 2 * Ulp(n / 2)
  }

  /** n to the nearest multiple of u, ties to the even one. */
  function RoundTo(n: nat, u: nat): int
    requires u > 0
  {
    var r := n % u;
    if 2 * r < u || (2 * r == u && n / u % 2 == 0) then n - r else n - r + u
  }

  function RoundNat(n: nat): int {
    RoundTo(n, Ulp(n))
  }

  /** The double nearest to an integer, when that integer is in range. */
  function Round(x: int): int {
    if x >= 0 then RoundNat(x) else -RoundNat(-x)
  }

  lemma {:induction false} UlpBounds(n: nat)
    ensures n < TWO53 * Ulp(n)
    ensures Ulp(n) > 1 ==> n >= TWO52 * Ulp(n)
    decreases n
  {
    if n >= TWO53 {
      UlpBounds(n / 2);
    }
  }

  lemma {:induction false} UlpMonotone(m: nat, n: nat)
    requires m <= n
    ensures Ulp(m) == Ulp(n) || 2 * Ulp(m) <= Ulp(n)
    decreases n
  {
    if m >= TWO53 {
      UlpMonotone(m / 2, n / 2);
    } else if n >= TWO53 {
      assert Ulp(n) >= 2;
    }
  }

  /** Between two multiples of u, rounding down and up stays between them. */
  lemma DownBounds(n: nat, u: nat, k: nat)
    requires u > 0
    ensures n < k * u ==> n - n % u + u <= k * u
    ensures n >= k * u ==> n - n % u >= k * u
  {
    var q := n / u;
    assert n - n % u == q * u;
    assert (q + 1) * u == q * u + u;
    Scale(q + 1, k, u);
    Scale(k, q, u);
    Scale(k, q + 1, u);
  }

  lemma DownOrder(m: nat, n: nat, u: nat)
    requires u > 0 && m <= n
    ensures (m / u == n / u && m % u <= n % u) || m - m % u + u <= n - n % u
  {
    var p, q := m / u, n / u;
    assert m == p * u + m % u && n == q * u + n % u;
    assert (p + 1) * u == p * u + u;
    assert (q + 1) * u == q * u + u;
    Scale(p + 1, q, u);
    Scale(q + 1, p, u);
  }

  lemma RoundToBounds(n: nat, u: nat, k: nat, bound: int)
    requires u > 0 && bound == k * u
    ensures n < bound ==> RoundTo(n, u) <= bound
    ensures n >= bound ==> RoundTo(n, u) >= bound
  {
    DownBounds(n, u, k);
  }

  /** A rounded number stays within the binade that its spacing was taken from. */
  lemma RoundNatBelow(n: nat)
    ensures RoundNat(n) <= TWO53 * Ulp(n)
  {
    UlpBounds(n);
    RoundToBounds(n, Ulp(n), TWO53, TWO53 * Ulp(n));
  }

  lemma RoundNatAbove(n: nat)
    requires Ulp(n) > 1
    ensures RoundNat(n) >= TWO52 * Ulp(n)
  {
    UlpBounds(n);
    RoundToBounds(n, Ulp(n), TWO52, TWO52 * Ulp(n));
  }

  lemma RoundToMonotone(m: nat, n: nat, u: nat)
    requires u > 0 && m <= n
    ensures RoundTo(m, u) <= RoundTo(n, u)
  {
    DownOrder(m, n, u);
  }

  lemma RoundNatMonotone(m: nat, n: nat)
    requires m <= n
    ensures RoundNat(m) <= RoundNat(n)
  {
    UlpMonotone(m, n);
    if Ulp(m) == Ulp(n) {
      RoundToMonotone(m, n, Ulp(m));
    } else {
      RoundNatBelow(m);
      RoundNatAbove(n);
    }
  }

  lemma RoundMonotone(x: int, y: int)
    requires x <= y
    ensures Round(x) <= Round(y)
  {
    if x >= 0 {
      RoundNatMonotone(x, y);
    } else if y < 0 {
      RoundNatMonotone(-y, -x);
    } else {
      RoundNatMonotone(0, -x);
      RoundNatMonotone(0, y);
    }
  }

  lemma RoundSmall(x: int)
    requires -TWO53 <= x <= TWO53
    ensures Round(x) == x
  {
    if x == TWO53 || x == -TWO53 {
      assert Ulp(TWO53) == 2 * Ulp(TWO53 / 2) == 2;
    }
  }

  function Pow2(e: nat): nat { if e == 0 then 1 else 2 * Pow2(e - 1) }

  /** Multiples of 2^e below 2^53 * 2^e are represented exactly. */
  lemma {:induction false} RoundMultiple(k: nat, e: nat)
    requires k < TWO53
    ensures RoundNat(k * Pow2(e)) == k * Pow2(e)
  {
    var n := k * Pow2(e);
    UlpDivides(n, k, e);
    var c: nat :| Pow2(e) == c * Ulp(n);
    assert n == (k * c) * Ulp(n);
    ExactMultiple(n, Ulp(n), k * c);
  }

  lemma ExactMultiple(n: nat, u: nat, c: nat)
    requires u > 0 && n == c * u
    ensures RoundTo(n, u) == n
  {
    DownBounds(n, u, c);
  }

  lemma {:induction false} UlpDivides(n: nat, k: nat, e: nat)
    requires n == k * Pow2(e) && k < TWO53
    ensures exists c: nat :: Pow2(e) == c * Ulp(n)
    decreases e
  {
    if n < TWO53 {
      assert Pow2(e) == Pow2(e) * Ulp(n);
    } else {
      assert e > 0;
      assert n / 2 == k * Pow2(e - 1) by {
        assert n == 2 * (k * Pow2(e - 1));
      }
      UlpDivides(n / 2, k, e - 1);
      var c: nat :| Pow2(e - 1) == c * Ulp(n / 2);
      assert Pow2(e) == c * Ulp(n);
    }
  }

  // ----- What rounding to nearest even means

  /** The spacing is a power of two. */
  lemma {:induction false} UlpIsPower(n: nat)
    ensures exists e: nat :: Ulp(n) == Pow2(e)
    decreases n
  {
    if n < TWO53 {
      assert Ulp(n) == Pow2(0);
    } else {
      UlpIsPower(n / 2);
      var e: nat :| Ulp(n / 2) == Pow2(e);
      assert Ulp(n) == Pow2(e + 1);
    }
  }

  /** The integers that a double holds exactly: the multiples of the spacing. */
  predicate IsDouble(x: int) { Abs(x) % Ulp(Abs(x)) == 0 }

  /** r is a multiple of the spacing at x, at most half of it away, and at a tie an even one. */
  predicate NearestEven(x: int, r: int) {
    var u := Ulp(Abs(x));
    && Abs(r) % u == 0
    && 2 * Abs(r - x) <= u
    && (2 * Abs(r - x) == u ==> Abs(r) / u % 2 == 0)
  }

  lemma RoundToNearest(n: nat, u: nat)
    requires u > 0
    ensures var r := RoundTo(n, u);
            && r >= 0 && r % u == 0 && 2 * Abs(r - n) <= u && (2 * Abs(r - n) == u ==> r / u % 2 == 0)
  {
    var q := n / u;
    assert n == q * u + n % u;
    assert (q + 1) * u == q * u + u;
    MultipleOf(q, u);
    MultipleOf(q + 1, u);
  }

  lemma MultipleOf(q: nat, u: nat)
    requires u > 0
    ensures q * u >= 0 && q * u / u == q && q * u % u == 0
  {
    var n := q * u;
    DownBounds(n, u, q);
    assert n == n / u * u + n % u;
    Scale(q, n / u, u);
    Scale(n / u, q, u);
  }

  lemma RoundIsNearestEven(x: int)
    ensures NearestEven(x, Round(x))
  {
    RoundToNearest(Abs(x), Ulp(Abs(x)));
  }

  /** From one multiple of u to the next one never leaves the binade. */
  lemma StaysInBinade(n: nat, y: nat, u: nat, q: nat)
    requires u > 0 && q * u <= n < (q + 1) * u && q * u < y < (q + 1) * u
    ensures n < TWO53 * u ==> y < TWO53 * u
    ensures n >= TWO52 * u ==> y >= TWO52 * u
  {
    Below(q, TWO53, u, n);
    Below(q, TWO52, u, n);
  }

  lemma Below(q: nat, k: nat, u: nat, n: nat)
    requires u > 0 && q * u <= n < (q + 1) * u
    ensures n < k * u ==> (q + 1) * u <= k * u
    ensures n >= k * u ==> q * u >= k * u
  {
    Scale(k, q, u);
    Scale(q + 1, k, u);
  }

  /** Between two neighbouring multiples of the spacing at n that enclose n there is no double. */
  lemma NoDoubleBetween(n: nat, y: nat, u: nat, q: nat)
    requires u == Ulp(n) && q * u <= n < (q + 1) * u && q * u < y < (q + 1) * u
    ensures !IsDouble(y)
  {
    UlpBounds(n);
    StaysInBinade(n, y, u, q);
    SameSpacing(n, y);
    Strictly(q, y, u);
  }

  lemma Strictly(q: nat, y: nat, u: nat)
    requires u > 0 && q * u < y < (q + 1) * u
    ensures y % u != 0
  {
    var k := y / u;
    assert y == k * u + y % u;
    Scale(k, q, u);
    Scale(q + 1, k, u);
  }

  /** Numbers in one binade have one spacing. */
  lemma SameSpacing(n: nat, y: nat)
    requires y < TWO53 * Ulp(n) && (Ulp(n) > 1 ==> y >= TWO52 * Ulp(n))
    ensures Ulp(y) == Ulp(n)
  {
    UlpBounds(n);
    UlpBounds(y);
    if y <= n {
      UlpMonotone(y, n);
    } else {
      UlpMonotone(n, y);
    }
  }

  /** The rounded number is a double, and no double is nearer. */
  lemma NoDoubleIsNearer(x: int, y: int)
    ensures IsDouble(Round(x))
    ensures IsDouble(y) ==> Abs(Round(x) - x) <= Abs(y - x)
  {
    var n := Abs(x);
    RoundedIsDouble(n);
    NotNearer(n, 0, Ulp(n), n / Ulp(n));
    if IsDouble(y) {
      NotNearer(n, Abs(y), Ulp(n), n / Ulp(n));
    }
  }

  lemma NotNearer(n: nat, y: nat, u: nat, q: nat)
    requires IsDouble(y) && u == Ulp(n) && q == n / u
    ensures Abs(RoundTo(n, u) - n) <= Abs(y - n)
  {
    Enclosed(n, u, q, y);
    if q * u < y < (q + 1) * u {
      NoDoubleBetween(n, y, u, q);
    }
  }

  /** RoundTo picks the nearer end of the interval between two multiples. */
  lemma Enclosed(n: nat, u: nat, q: nat, y: nat)
    requires u > 0 && q == n / u
    ensures q * u <= n < (q + 1) * u
    ensures !(q * u < y < (q + 1) * u) ==> Abs(RoundTo(n, u) - n) <= Abs(y - n)
  {
    assert n == q * u + n % u && (q + 1) * u == q * u + u;
  }

  lemma RoundedIsDouble(n: nat)
    ensures RoundNat(n) >= 0 && IsDouble(RoundNat(n))
  {
    UlpIsPower(n);
    var e: nat :| Ulp(n) == Pow2(e);
    RoundToNearest(n, Ulp(n));
    RoundNatBelow(n);
    CountOfMultiples(RoundNat(n), Ulp(n));
    MultipleIsDouble(RoundNat(n), RoundNat(n) / Pow2(e), e);
  }

  /** A multiple of 2^e up to 2^53 * 2^e is a double. */
  lemma MultipleIsDouble(r: nat, k: nat, e: nat)
    requires r == k * Pow2(e) && k <= TWO53
    ensures IsDouble(r)
  {
    if k < TWO53 {
      RoundMultiple(k, e);
    } else {
      RoundMultiple(TWO52, e + 1);
      assert Pow2(e + 1) == 2 * Pow2(e);
      assert r == TWO52 * Pow2(e + 1);
    }
    RoundNatExactly(r);
  }

  lemma CountOfMultiples(r: nat, u: nat)
    requires u > 0 && r % u == 0 && r <= TWO53 * u
    ensures r == r / u * u && r / u <= TWO53
  {
    assert r == r / u * u + r % u;
    Scale(r / u, TWO53, u);
  }

  // ----- Any rounding to 53 bits

  /** What a conversion to double does to integers, in whichever rounding mode. */
  ghost predicate RoundsTo53Bits(rnd: int -> int) {
    && (forall x, y :: x <= y ==> rnd(x) <= rnd(y))
    && (forall x :: -TWO53 <= x <= TWO53 ==> rnd(x) == x)
    && (forall k: nat, e: nat :: k < TWO53 ==>
                                   rnd(k * Pow2(e)) == k * Pow2(e) && rnd(-(k * Pow2(e))) == -(k * Pow2(e)))
  }

  /** Rounding to nearest, ties to even, is such a conversion. */
  lemma RoundIsOne()
    ensures RoundsTo53Bits(Round)
  {
    forall x, y | x <= y ensures Round(x) <= Round(y) {
      RoundMonotone(x, y);
    }
    forall x | -TWO53 <= x <= TWO53 ensures Round(x) == x {
      RoundSmall(x);
    }
    forall k: nat, e: nat | k < TWO53
      ensures Round(k * Pow2(e)) == k * Pow2(e) && Round(-(k * Pow2(e))) == -(k * Pow2(e))
    {
      RoundMultiple(k, e);
      RoundSmall(0);
    }
  }

  /** Whole seconds in nanoseconds: 10^9 is a multiple of 2^9, which buys nine more bits. */
  lemma SecondsAreExact(rnd: int -> int, sec: int)
    requires RoundsTo53Bits(rnd) && InRange(sec)
    ensures rnd(NSEC * sec) == NSEC * sec
  {
    var k: nat := 1953125 * (if sec < 0 then -sec else sec);
    assert Pow2(9) == 512 by {
      assert Pow2(4) == 16;
      assert Pow2(8) == 2 * (2 * (2 * (2 * Pow2(4))));
    }
    assert k * Pow2(9) == if sec < 0 then -(NSEC * sec) else NSEC * sec;
    assert rnd(k * Pow2(9)) == k * Pow2(9) && rnd(-(k * Pow2(9))) == -(k * Pow2(9));
  }

  // ----- The functions of the source

  /** timer_difference_ns: the conversion of ret, the product and the sum are each rounded. */
  function DifferenceNs(rnd: int -> int, a: Time, b: Time): int {
    rnd(rnd(a.nsec - b.nsec) + rnd(NSEC * rnd(a.sec - b.sec)))
  }

  /** timer_to_ns */
  function ToNs(rnd: int -> int, a: Time): int {
    rnd(rnd(NSEC * rnd(a.sec)) + rnd(a.nsec))
  }

  /** timer_greater_than */
  predicate GreaterThan(a: Time, b: Time) {
    if a.sec > b.sec then true else if a.sec == b.sec then a.nsec > b.nsec else false
  }

  /** Less than 2^62 nanoseconds of whole seconds: about 146 years either way. */
  predicate InRange(sec: int) { -TWO62 < NSEC * sec < TWO62 }

  /** On canonical timespecs the comparison is that of the instants. */
  lemma GreaterThanExactly(a: Time, b: Time)
    requires Canonical(a) && Canonical(b)
    ensures GreaterThan(a, b) <==> Total(a) > Total(b)
    ensures Total(a) == Total(b) <==> a == b
  {
    assert Total(a) - Total(b) == (a.sec - b.sec) * NSEC + (a.nsec - b.nsec);
  }

  /** On the fields, canonical or not, it is lexicographic: a strict total order. */
  lemma GreaterThanIsStrictTotalOrder(a: Time, b: Time, c: Time)
    ensures GreaterThan(a, b) <==> a.sec > b.sec || (a.sec == b.sec && a.nsec > b.nsec)
    ensures !GreaterThan(a, a)
    ensures GreaterThan(a, b) && GreaterThan(b, c) ==> GreaterThan(a, c)
    ensures GreaterThan(a, b) ==> !GreaterThan(b, a)
    ensures a != b ==> GreaterThan(a, b) || GreaterThan(b, a)
  {
  }

  /** What timer_add leaves in the nanoseconds of a timespec that was canonical. */
  predicate AfterAdd(a: Time) { -NSEC < a.nsec <= NSEC }

  /**
   On the timespecs that timer_add leaves it is so exactly unless the seconds are one apart
   and the nanoseconds make up for that: for the second ahead in a they need only make it
   even, for the second ahead in b they must do more.
   */
  lemma GreaterThanAfterAddExactly(a: Time, b: Time)
    requires AfterAdd(a) && AfterAdd(b)
    ensures (GreaterThan(a, b) <==> Total(a) > Total(b)) <==>
            !(a.sec == b.sec + 1 && a.nsec - b.nsec <= -NSEC) && !(b.sec == a.sec + 1 && a.nsec - b.nsec > NSEC)
  {
    assert Total(a) - Total(b) == (a.sec - b.sec) * NSEC + (a.nsec - b.nsec);
  }

  /** A nanosecond less than one second compares greater than its canonical form, and than a full second. */
  lemma UnborrowedComparesGreater()
    ensures var a, b, c := Added(Time(1, 0), -1), Time(0, 999_999_999), Added(Time(0, 500_000_000), 500_000_000);
            && GreaterThan(a, b) && Total(a) == Total(b)
            && GreaterThan(a, c) && Total(a) < Total(c)
  {
    AddLeavesRange();
  }

  /** Three roundings amount to one: the difference is the true one, correctly rounded. */
  lemma DifferenceIsCorrectlyRounded(rnd: int -> int, a: Time, b: Time)
    requires RoundsTo53Bits(rnd) && -TWO53 <= a.nsec - b.nsec <= TWO53 && InRange(a.sec - b.sec)
    ensures DifferenceNs(rnd, a, b) == rnd(Total(a) - Total(b))
    ensures -TWO53 <= Total(a) - Total(b) <= TWO53 ==> DifferenceNs(rnd, a, b) == Total(a) - Total(b)
  {
    SecondsAreExact(rnd, a.sec - b.sec);
    assert Total(a) - Total(b) == a.nsec - b.nsec + NSEC * (a.sec - b.sec);
  }

  lemma ToNsIsCorrectlyRounded(rnd: int -> int, a: Time)
    requires RoundsTo53Bits(rnd) && -TWO53 <= a.nsec <= TWO53 && InRange(a.sec)
    ensures ToNs(rnd, a) == rnd(Total(a))
    ensures -TWO53 <= Total(a) <= TWO53 ==> ToNs(rnd, a) == Total(a)
  {
    SecondsAreExact(rnd, a.sec);
    assert Total(a) == NSEC * a.sec + a.nsec;
  }

  /**
   The three ways to compare two instants agree.  The sign of the difference is right however
   far apart they are; the converted values never come out in the wrong order, and separate
   the two whenever both lie within 2^53 nanoseconds of the epoch.
   */
  lemma ComparisonsAgree(rnd: int -> int, a: Time, b: Time)
    requires RoundsTo53Bits(rnd) && Canonical(a) && Canonical(b)
    requires InRange(a.sec) && InRange(b.sec) && InRange(a.sec - b.sec)
    ensures GreaterThan(a, b) <==> DifferenceNs(rnd, a, b) > 0
    ensures a == b <==> DifferenceNs(rnd, a, b) == 0
    ensures ToNs(rnd, a) > ToNs(rnd, b) ==> GreaterThan(a, b)
    ensures -TWO53 <= Total(a) <= TWO53 && -TWO53 <= Total(b) <= TWO53 ==>
              (GreaterThan(a, b) <==> ToNs(rnd, a) > ToNs(rnd, b))
  {
    GreaterThanExactly(a, b);
    DifferenceIsCorrectlyRounded(rnd, a, b);
    ToNsIsCorrectlyRounded(rnd, a);
    ToNsIsCorrectlyRounded(rnd, b);
    var d := Total(a) - Total(b);
    assert rnd(1) == 1 && rnd(0) == 0 && rnd(-1) == -1;
    assert d >= 1 ==> rnd(d) >= rnd(1);
    assert d <= -1 ==> rnd(d) <= rnd(-1);
    assert Total(a) <= Total(b) ==> rnd(Total(a)) <= rnd(Total(b));
  }

  /** A number is rounded to itself exactly if it is a multiple of the spacing of doubles at it. */
  lemma RoundNatExactly(n: nat)
    ensures RoundNat(n) == n <==> n % Ulp(n) == 0
  {
  }

  /**
   What the conversion returns, whatever multiples of a second are in the nanoseconds: the
   nearest double to the exact value, and of two the even one.
   */
  lemma ToNsIsNearestEven(a: Time)
    requires -TWO53 <= a.nsec <= TWO53 && InRange(a.sec)
    ensures NearestEven(Total(a), ToNs(Round, a))
  {
    RoundIsOne();
    ToNsIsCorrectlyRounded(Round, a);
    RoundIsNearestEven(Total(a));
  }

  /** The same for the difference. */
  lemma DifferenceIsNearestEven(a: Time, b: Time)
    requires -TWO53 <= a.nsec - b.nsec <= TWO53 && InRange(a.sec - b.sec)
    ensures NearestEven(Total(a) - Total(b), DifferenceNs(Round, a, b))
  {
    RoundIsOne();
    DifferenceIsCorrectlyRounded(Round, a, b);
    RoundIsNearestEven(Total(a) - Total(b));
  }

  /** The exact instants whose conversion loses nothing. */
  lemma ToNsExactly(a: Time)
    requires -TWO53 <= a.nsec <= TWO53 && InRange(a.sec)
    ensures ToNs(Round, a) == Total(a) <==> Abs(Total(a)) % Ulp(Abs(Total(a))) == 0
  {
    RoundIsOne();
    ToNsIsCorrectlyRounded(Round, a);
    RoundNatExactly(Abs(Total(a)));
  }

  predicate Within(t: Time, bound: nat) {
    Canonical(t) && Abs(Total(t)) <= bound
  }

  /** On instants at most `bound` from the epoch, comparing conversions is comparing instants. */
  ghost predicate ConversionsDecide(bound: nat) {
    forall a, b :: Within(a, bound) && Within(b, bound) ==>
                     (GreaterThan(a, b) <==> ToNs(Round, a) > ToNs(Round, b))
  }

  /** 2^53 ns, about 104 days, is the exact limit. */
  lemma ConversionsDecideExactly(bound: nat)
    ensures ConversionsDecide(bound) <==> bound <= TWO53
  {
    if bound <= TWO53 {
      RoundIsOne();
      forall a, b | Within(a, bound) && Within(b, bound)
        ensures GreaterThan(a, b) <==> ToNs(Round, a) > ToNs(Round, b)
      {
        ComparisonsAgree(Round, a, b);
      }
    } else {
      ToNsConfusesNeighbours();
      NeighboursAreWithin(bound);
    }
  }

  lemma NeighboursAreWithin(bound: nat)
    requires bound > TWO53
    ensures Within(Time(9007199, 254740993), bound) && Within(Time(9007199, 254740992), bound)
  {
  }

  /** Beyond 2^53 the conversion does confuse neighbours that the comparison tells apart. */
  lemma ToNsConfusesNeighbours()
    ensures var a, b := Time(9007199, 254740993), Time(9007199, 254740992);
            GreaterThan(a, b) && ToNs(Round, a) == ToNs(Round, b) && DifferenceNs(Round, a, b) == 1
  {
    var a, b := Time(9007199, 254740993), Time(9007199, 254740992);
    assert Total(b) == TWO53 && Total(a) == TWO53 + 1;
    RoundIsOne();
    ToNsIsCorrectlyRounded(Round, a);
    ToNsIsCorrectlyRounded(Round, b);
    DifferenceIsCorrectlyRounded(Round, a, b);
    RoundJustAbove();
  }

  lemma RoundJustAbove()
    ensures Round(TWO53 + 1) == TWO53
  {
    assert Ulp(TWO53 + 1) == 2 * Ulp((TWO53 + 1) / 2) == 2;
  }
}
