/** The controller that keeps a cycle in step with a reference clock. */
module SyncController {
  import opened Timespec

  /** The reference clock against the sync point 50 us later, folded once toward zero. */
  function Delta(reftime: int, cycletime: int): int
    requires cycletime != 0
  {
    var delta := CMod(reftime - 50000, cycletime);
    if delta > CDiv(cycletime, 2) then delta - cycletime else delta
  }

  function SignOf(x: int): int { if x > 0 then 1 else if x < 0 then -1 else 0 }

  ghost predicate Congruent(a: int, b: int, m: int) {
    exists k: int :: a - b == k * m
  }

  /**
   The error is the phase of the reference within its cycle, up to whole cycles.  From the
   sync point on it is the representative nearest to zero; before it, C's negative remainder
   escapes the fold, and the representative is the nearest exactly if it was so already.
   */
  lemma DeltaIsPhase(reftime: int, cycletime: int)
    requires cycletime > 0
    ensures Congruent(Delta(reftime, cycletime), reftime - 50000, cycletime)
    ensures -cycletime < Delta(reftime, cycletime) && 2 * Delta(reftime, cycletime) <= cycletime
    ensures -cycletime < 2 * Delta(reftime, cycletime) <==>
            reftime >= 50000 || -cycletime < 2 * CMod(reftime - 50000, cycletime)
    ensures reftime < 50000 ==> Delta(reftime, cycletime) <= 0
  {
    var x := reftime - 50000;
    CDivMod(x, cycletime);
    var q := CDiv(x, cycletime);
    var d := Delta(reftime, cycletime);
    var k := if d == CMod(x, cycletime) then -q else -q - 1;
    assert (-q - 1) * cycletime == -q * cycletime - cycletime;
    assert d - x == k * cycletime;
  }

  /**
   A negative cycle time folds the other way: from the sync point on the error is a whole
   cycle too large, and before it, it is within a cycle of 0 but on the far side of the fold.
   A cycle of -1 has no other phase than 0.
   */
  lemma NegativeCycle(reftime: int, cycletime: int)
    requires cycletime < 0
    ensures var d, m := Delta(reftime, cycletime), -cycletime;
            && Congruent(d, reftime - 50000, m)
            && (m == 1 ==> d == 0)
            && (m > 1 && reftime >= 50000 ==> m <= d < 2 * m)
            && (m > 1 && reftime < 50000 ==> -m < d <= -(m / 2) || m - m / 2 < d <= m)
  {
    CDivMod(reftime - 50000, cycletime);
    HalfOfNegative(-cycletime);
    FoldIsCongruent(reftime, cycletime);
  }

  lemma HalfOfNegative(m: int)
    requires m > 0
    ensures CDiv(-m, 2) == -(m / 2)
  {
  }

  lemma FoldIsCongruent(reftime: int, cycletime: int)
    requires cycletime < 0
    ensures Congruent(Delta(reftime, cycletime), reftime - 50000, -cycletime)
  {
    var x := reftime - 50000;
    CDivMod(x, cycletime);
    var q := CDiv(x, cycletime);
    var d := Delta(reftime, cycletime);
    var k := if d == CMod(x, cycletime) then q else q + 1;
    FoldedBack(x, cycletime, q, k, d);
  }

  lemma FoldedBack(x: int, c: int, q: int, k: int, d: int)
    requires (k == q && x == q * c + d) || (k == q + 1 && x == q * c + d + c)
    ensures d - x == k * -c
  {
  }

  /** Three nanoseconds before the sync point of a 4 ns cycle the error is -3, although 1 is nearer. */
  lemma DeltaIsNotNearest()
    ensures Delta(49997, 4) == -3 && Congruent(1, 49997 - 50000, 4)
  {
    assert 1 - (49997 - 50000) == 1 * 4;
  }

  // ----- Runs

  datatype Call = Call(reftime: int, cycletime: int)

  predicate CallsOk(calls: seq<Call>) {
    forall i :: 0 <= i < |calls| ==> calls[i].cycletime != 0
  }

  /** The static integral after a sequence of calls. */
  function IntegralAfter(calls: seq<Call>): int
    requires CallsOk(calls)
  {
    if calls == [] then 0
    else
      var last := calls[|calls| - 1];
      IntegralAfter(calls[..|calls| - 1]) + SignOf(Delta(last.reftime, last.cycletime))
  }

  /** What the last call of a sequence returns. */
  function OffsetAfter(calls: seq<Call>): int
    requires CallsOk(calls) && calls != []
  {
    var last := calls[|calls| - 1];
    -CDiv(Delta(last.reftime, last.cycletime), 100) - CDiv(IntegralAfter(calls), 20)
  }

  /** The calls whose error was positive, and those whose error was negative. */
  function Late(calls: seq<Call>): set<int>
    requires CallsOk(calls)
  {
    set i | 0 <= i < |calls| && Delta(calls[i].reftime, calls[i].cycletime) > 0
  }

  function Early(calls: seq<Call>): set<int>
    requires CallsOk(calls)
  {
    set i | 0 <= i < |calls| && Delta(calls[i].reftime, calls[i].cycletime) < 0
  }

  lemma OneMoreCall(calls: seq<Call>)
    requires CallsOk(calls) && calls != []
    ensures var n := |calls| - 1;
            var d := Delta(calls[n].reftime, calls[n].cycletime);
            && |Late(calls)| == |Late(calls[..n])| + (if d > 0 then 1 else 0)
            && |Early(calls)| == |Early(calls[..n])| + (if d < 0 then 1 else 0)
  {
    var n := |calls| - 1;
    var d := Delta(calls[n].reftime, calls[n].cycletime);
    var before := calls[..n];
    if d > 0 {
      assert Late(calls) == Late(before) + {n};
    } else {
      assert Late(calls) == Late(before);
    }
    if d < 0 {
      assert Early(calls) == Early(before) + {n};
    } else {
      assert Early(calls) == Early(before);
    }
  }

  /** The integral counts: late calls minus early ones. */
  lemma {:induction false} IntegralCounts(calls: seq<Call>)
    requires CallsOk(calls)
    ensures IntegralAfter(calls) == |Late(calls)| - |Early(calls)|
    ensures -|calls| <= IntegralAfter(calls) <= |calls|
  {
    if calls != [] {
      IntegralCounts(calls[..|calls| - 1]);
      OneMoreCall(calls);
    }
  }

  /**
   After n calls with whatever cycle times, the correction is at most a hundredth of the
   current error and a twentieth of n.
   */
  lemma OffsetIsBounded(calls: seq<Call>)
    requires CallsOk(calls) && calls != []
    ensures var last := calls[|calls| - 1];
            Abs(OffsetAfter(calls)) <= Abs(Delta(last.reftime, last.cycletime)) / 100 + |calls| / 20
  {
    var last := calls[|calls| - 1];
    IntegralCounts(calls);
    var d, i := Delta(last.reftime, last.cycletime), IntegralAfter(calls);
    CDivBounds(d, 100);
    CDivBounds(i, 20);
  }

  /**
   The correction after every history: against a hundredth of the last error, and against a
   twentieth of the surplus of late calls over early ones, each rounded down in size.
   */
  lemma OffsetExactly(calls: seq<Call>)
    requires CallsOk(calls) && calls != []
    ensures var d := Delta(calls[|calls| - 1].reftime, calls[|calls| - 1].cycletime);
            var p, q := |Late(calls)|, |Early(calls)|;
            OffsetAfter(calls) ==
            (if d >= 0 then -(d / 100) else -d / 100) - (if p >= q then (p - q) / 20 else -((q - p) / 20))
  {
    IntegralCounts(calls);
  }

  /**
   The correction opposes the error.  As long as no error has had the other sign, it is
   exactly a hundredth of the last one and a twentieth of the number of non-zero ones, each
   rounded down in size.
   */
  lemma OffsetOpposesError(calls: seq<Call>)
    requires CallsOk(calls) && calls != []
    ensures var d := Delta(calls[|calls| - 1].reftime, calls[|calls| - 1].cycletime);
            && (Early(calls) == {} ==> OffsetAfter(calls) == -(d / 100 + |Late(calls)| / 20))
            && (Late(calls) == {} ==> OffsetAfter(calls) == -d / 100 + |Early(calls)| / 20)
  {
    OffsetExactly(calls);
    if Early(calls) == {} {
      assert |calls| - 1 !in Early(calls);
    }
    if Late(calls) == {} {
      assert |calls| - 1 !in Late(calls);
    }
  }

  /** The integral and the correction after one more call. */
  lemma NewestCall(calls: seq<Call>, call: Call)
    requires CallsOk(calls) && call.cycletime != 0
    ensures var d, all := Delta(call.reftime, call.cycletime), calls + [call];
            && IntegralAfter(all) == IntegralAfter(calls) + SignOf(d)
            && OffsetAfter(all) == -CDiv(d, 100) - CDiv(IntegralAfter(all), 20)
  {
    assert (calls + [call])[..|calls|] == calls;
  }

  /** The controller; `integral` is the static variable of the function. */
  class Controller {
    var integral: int
    ghost var calls: seq<Call>

    ghost predicate Valid()
      reads this
    {
      CallsOk(calls) && integral == IntegralAfter(calls)
    }

    constructor ()
      ensures Valid() && calls == []
    {
      integral, calls := 0, [];
    }

    method CalcSyncOffset(reftime: int, cycletime: int) returns (offset: int)
      requires Valid() && cycletime != 0
      modifies this
      ensures Valid() && calls == old(calls) + [Call(reftime, cycletime)]
      ensures offset == OffsetAfter(calls)
      ensures var d, p, q := Delta(reftime, cycletime), |Late(calls)|, |Early(calls)|;
              offset == (if d >= 0 then -(d / 100) else -d / 100) - (if p >= q then (p - q) / 20 else -((q - p) / 20))
    {
      var delta := CMod(reftime - 50000, cycletime);
      if delta > CDiv(cycletime, 2) {
        delta := delta - cycletime;
      }
      if delta > 0 {
        integral := integral + 1;
      }
      if delta < 0 {
        integral := integral - 1;
      }
      offset := -CDiv(delta, 100) - CDiv(integral, 20);
      NewestCall(calls, Call(reftime, cycletime));
      calls := calls + [Call(reftime, cycletime)];
      OffsetExactly(calls);
    }
  }
}
