/**
 TimeSpanTracker over the bounded circular buffer: its fields as functions of every call ever
 made.  Clock readings are arguments, in seconds since the clock's epoch.
 */
module TimeSpanTracker {

  // ----- The buffer

  /** The last n elements, or all of them. */
  function Window(xs: seq<real>, n: nat): seq<real> {
    if |xs| <= n then xs else xs[|xs| - n..]
  }

  /** By index: as many elements as fit, and always the newest. */
  lemma WindowAt(xs: seq<real>, n: nat)
    ensures |Window(xs, n)| == if |xs| < n then |xs| else n
    ensures forall i :: 0 <= i < |Window(xs, n)| ==> Window(xs, n)[i] == xs[|xs| - |Window(xs, n)| + i]
  {
  }

  function Sum(xs: seq<real>): real {
    if xs == [] then 0.0 else Sum(xs[..|xs| - 1]) + xs[|xs| - 1]
  }

  /** One element is its own sum, and a sum can be taken in parts. */
  lemma {:induction false} SumInParts(xs: seq<real>, ys: seq<real>)
    ensures |xs| == 1 ==> Sum(xs) == xs[0]
    ensures Sum(xs + ys) == Sum(xs) + Sum(ys)
  {
    if ys == [] {
      assert xs + ys == xs;
    } else {
      var n := |ys| - 1;
      assert (xs + ys)[..|xs + ys| - 1] == xs + ys[..n];
      SumInParts(xs, ys[..n]);
    }
    assert |xs| == 1 ==> xs[..0] == [];
  }

  predicate IsGreatest(x: real, xs: seq<real>) {
    x in xs && forall y :: y in xs ==> y <= x
  }

  predicate IsLeast(x: real, xs: seq<real>) {
    x in xs && forall y :: y in xs ==> x <= y
  }

  /** The greatest of 0 and the elements. */
  predicate GreatestFromZero(x: real, xs: seq<real>) {
    x >= 0.0 && (x == 0.0 || x in xs) && forall y :: y in xs ==> y <= x
  }

  /** The least of 0 and the elements. */
  predicate LeastFromZero(x: real, xs: seq<real>) {
    x <= 0.0 && (x == 0.0 || x in xs) && forall y :: y in xs ==> x <= y
  }

  /** The average, and 0 for no elements. */
  predicate IsMean(x: real, xs: seq<real>) {
    if xs == [] then x == 0.0 else x * |xs| as real == Sum(xs)
  }

  class CircBuffer {
    const capacity: nat
    var cb: seq<real>

    ghost predicate Valid()
      reads this
    {
      |cb| <= capacity
    }

    constructor (capacity: nat)
      ensures Valid() && this.capacity == capacity && cb == []
    {
      this.capacity, cb := capacity, [];
    }

    /** Drops the oldest element when full. */
    method PushBack(x: real)
      requires Valid()
      modifies this
      ensures Valid() && cb == Window(old(cb) + [x], capacity)
      ensures |cb| == if old(|cb|) < capacity then old(|cb|) + 1 else capacity
      ensures cb != [] ==> cb[|cb| - 1] == x && cb[..|cb| - 1] == old(cb)[old(|cb|) + 1 - |cb|..]
    {
      if capacity > 0 {
        cb := (if |cb| == capacity then cb[1..] else cb) + [x];
      }
    }
  }

  method Mean(cb: seq<real>) returns (ret: real)
    ensures IsMean(ret, cb)
    ensures ret == if cb == [] then 0.0 else Sum(cb) / |cb| as real
  {
    ret := 0.0;
    if |cb| == 0 { return; }
    for i := 0 to |cb|
      invariant ret == Sum(cb[..i])
    {
      ret := ret + cb[i];
      assert cb[..i + 1][..i] == cb[..i];
    }
    assert cb[..|cb|] == cb;
    ret := ret / |cb| as real;
  }

  /** The accumulator starts at 0, so this is the greatest of the elements and 0. */
  method Max(cb: seq<real>) returns (ret: real)
    ensures GreatestFromZero(ret, cb)
  {
    ret := 0.0;
    for i := 0 to |cb|
      invariant GreatestFromZero(ret, cb[..i])
    {
      assert cb[..i + 1] == cb[..i] + [cb[i]];
      ret := if cb[i] < ret then ret else cb[i];
    }
    assert cb[..|cb|] == cb;
  }

  method Min(cb: seq<real>) returns (ret: real)
    ensures LeastFromZero(ret, cb)
  {
    ret := 0.0;
    for i := 0 to |cb|
      invariant LeastFromZero(ret, cb[..i])
    {
      assert cb[..i + 1] == cb[..i] + [cb[i]];
      ret := if ret < cb[i] then ret else cb[i];
    }
    assert cb[..|cb|] == cb;
  }

  /** What `max` and `min` return is a true extreme exactly if some element is not beyond 0, and 0 otherwise. */
  lemma ExtremesExactly(cb: seq<real>, hi: real, lo: real)
    requires GreatestFromZero(hi, cb) && LeastFromZero(lo, cb)
    ensures IsGreatest(hi, cb) <==> exists x :: x in cb && x >= 0.0
    ensures IsLeast(lo, cb) <==> exists x :: x in cb && x <= 0.0
    ensures (forall x :: x in cb ==> x < 0.0) ==> hi == 0.0
    ensures (forall x :: x in cb ==> x > 0.0) ==> lo == 0.0
  {
  }

  /** The maximum of a buffer that holds only -1 is 0, which it does not hold. */
  lemma MaxOfNegatives()
    ensures forall hi :: GreatestFromZero(hi, [-1.0]) <==> hi == 0.0
    ensures !IsGreatest(0.0, [-1.0])
  {
    assert forall y :: y in [-1.0] <==> y == -1.0;
  }

  // ----- The tracker

  datatype Mode = NoMode | TimeSpan | TickTock

  datatype Kind = CallTimeSpan | CallTick | CallTock

  datatype Call = Call(kind: Kind, now: real)

  function ModeOf(k: Kind): Mode {
    if k == CallTimeSpan then TimeSpan else TickTock
  }

  /** The mode latched by a history: that of its first call. */
  function Latch(calls: seq<Call>): Mode {
    if calls == [] then NoMode else ModeOf(calls[0].kind)
  }

  /** The clock of the last call that was not rejected; the clock's epoch if there is none. */
  function LastTick(calls: seq<Call>): real {
    if calls == [] then 0.0
    else if ModeOf(calls[|calls| - 1].kind) == Latch(calls) then calls[|calls| - 1].now
    else LastTick(calls[..|calls| - 1])
  }

  /** The spans measured by a history: one for each accepted call that is not a tick. */
  function Spans(calls: seq<Call>): seq<real> {
    if calls == [] then []
    else
      var before, last := calls[..|calls| - 1], calls[|calls| - 1];
      if ModeOf(last.kind) != Latch(calls) || last.kind == CallTick then Spans(before)
      else Spans(before) + [last.now - LastTick(before)]
  }

  predicate IsMissed(span: real, nominal: real) { span > 1.2 * nominal }

  function MissedCount(spans: seq<real>, nominal: real): nat {
    if spans == [] then 0
    else MissedCount(spans[..|spans| - 1], nominal)
         + if IsMissed(spans[|spans| - 1], nominal) then 1 else 0
  }

  /** One more call. */
  lemma Step(calls: seq<Call>, last: Call)
    ensures Latch(calls + [last]) == if calls == [] then ModeOf(last.kind) else Latch(calls)
    ensures ModeOf(last.kind) != Latch(calls + [last]) ==>
              Spans(calls + [last]) == Spans(calls) && LastTick(calls + [last]) == LastTick(calls)
    ensures ModeOf(last.kind) == Latch(calls + [last]) ==>
              && LastTick(calls + [last]) == last.now
              && Spans(calls + [last]) == Spans(calls)
                                          + if last.kind == CallTick then [] else [last.now - LastTick(calls)]
  {
    assert (calls + [last])[..|calls|] == calls;
  }

  /** The fields of a tracker. */
  datatype Fields = Fields(mode: Mode, lastTick: real, cb: seq<real>, cycles: nat, missedCycles: nat)

  /** Every field is a function of the calls made so far. */
  predicate Refines(f: Fields, calls: seq<Call>, nominal: real, capacity: nat) {
    && f.mode == Latch(calls)
    && f.lastTick == LastTick(calls)
    && f.cb == Window(Spans(calls), capacity)
    && f.cycles == |Spans(calls)|
    && f.missedCycles == MissedCount(Spans(calls), nominal)
  }

  /** The fields after measuring one more span. */
  function WithSpan(f: Fields, m: Mode, now: real, nominal: real, capacity: nat): Fields {
    var span := now - f.lastTick;
    Fields(m, now, Window(f.cb + [span], capacity), f.cycles + 1,
           f.missedCycles + if IsMissed(span, nominal) then 1 else 0)
  }

  /** An accepted call that measures a span keeps that relation. */
  lemma Measured(f: Fields, calls: seq<Call>, last: Call, nominal: real, capacity: nat)
    requires Refines(f, calls, nominal, capacity) && last.kind != CallTick
    requires f.mode == NoMode || f.mode == ModeOf(last.kind)
    ensures Refines(WithSpan(f, ModeOf(last.kind), last.now, nominal, capacity), calls + [last], nominal, capacity)
  {
    Step(calls, last);
    var spans, span := Spans(calls), last.now - f.lastTick;
    assert (spans + [span])[..|spans|] == spans;
  }

  class Tracker {
    const nominal: real
    const buffer: CircBuffer
    var cycles: nat
    var missedCycles: nat
    var mode: Mode
    var lastTick: real
    ghost var calls: seq<Call>

    ghost function State(): Fields
      reads this, buffer
    {
      Fields(mode, lastTick, buffer.cb, cycles, missedCycles)
    }

    ghost predicate Valid()
      reads this, buffer
    {
      buffer.Valid() && Refines(State(), calls, nominal, buffer.capacity)
    }

    constructor (window: nat, nominal: real)
      ensures Valid() && fresh(buffer) && calls == []
      ensures buffer.capacity == window && this.nominal == nominal
    {
      this.nominal := nominal;
      buffer := new CircBuffer(window);
      cycles, missedCycles, mode, lastTick := 0, 0, NoMode, 0.0;
      calls := [];
    }

    method MeasureTimeSpan(now: real) returns (ok: bool)
      requires Valid()
      modifies this, buffer
      ensures Valid() && calls == old(calls) + [Call(CallTimeSpan, now)]
      ensures ok <==> old(mode) != TickTock
      ensures !ok ==> unchanged(buffer) && unchanged(`cycles, `missedCycles, `mode, `lastTick)
    {
      ghost var before, call := State(), Call(CallTimeSpan, now);
      if mode == TickTock {
        Step(calls, call);
        calls := calls + [call];
        return false;
      }
      Measured(before, calls, call, nominal, buffer.capacity);
      Measure(TimeSpan, now);
      calls := calls + [call];
      ok := true;
    }

    method Tick(now: real) returns (ok: bool)
      requires Valid()
      modifies this
      ensures Valid() && calls == old(calls) + [Call(CallTick, now)]
      ensures ok <==> old(mode) != TimeSpan
      ensures !ok ==> unchanged(`cycles, `missedCycles, `mode, `lastTick)
    {
      Step(calls, Call(CallTick, now));
      calls := calls + [Call(CallTick, now)];
      if mode == TimeSpan { return false; }
      mode := TickTock;
      lastTick := now;
      ok := true;
    }

    method Tock(now: real) returns (ok: bool)
      requires Valid()
      modifies this, buffer
      ensures Valid() && calls == old(calls) + [Call(CallTock, now)]
      ensures ok <==> old(mode) != TimeSpan
      ensures !ok ==> unchanged(buffer) && unchanged(`cycles, `missedCycles, `mode, `lastTick)
    {
      ghost var before, call := State(), Call(CallTock, now);
      if mode == TimeSpan {
        Step(calls, call);
        calls := calls + [call];
        return false;
      }
      Measured(before, calls, call, nominal, buffer.capacity);
      Measure(TickTock, now);
      calls := calls + [call];
      ok := true;
    }

    /** The lines time_span and tock share. */
    method Measure(m: Mode, now: real)
      requires buffer.Valid()
      modifies this`mode, this`lastTick, this`cycles, this`missedCycles, buffer
      ensures buffer.Valid()
      ensures State() == WithSpan(old(State()), m, now, nominal, buffer.capacity)
    {
      mode := m;
      var span := now - lastTick;
      buffer.PushBack(span);
      if span > 1.2 * nominal {
        missedCycles := missedCycles + 1;
      }
      cycles := cycles + 1;
      lastTick := now;
    }

    method GetMean() returns (mean: real)
      requires Valid()
      ensures IsMean(mean, Window(Spans(calls), buffer.capacity))
    {
      mean := Mean(buffer.cb);
    }

    method GetMax() returns (max: real)
      requires Valid()
      ensures GreatestFromZero(max, Window(Spans(calls), buffer.capacity))
    {
      max := Max(buffer.cb);
    }

    method GetMin() returns (min: real)
      requires Valid()
      ensures LeastFromZero(min, Window(Spans(calls), buffer.capacity))
    {
      min := Min(buffer.cb);
    }
  }

  lemma RealScale(a: real, b: real, n: real)
    requires n > 0.0
    ensures a <= b <==> a * n <= b * n
  {
    assert (b - a) * n == b * n - a * n;
    if a > b {
      assert (a - b) * n > 0.0;
    }
  }

  lemma {:induction false} SumIsBetween(xs: seq<real>, lo: real, hi: real)
    requires forall i :: 0 <= i < |xs| ==> lo <= xs[i] <= hi
    ensures lo * |xs| as real <= Sum(xs) <= hi * |xs| as real
  {
    if xs != [] {
      var n := |xs| - 1;
      SumIsBetween(xs[..n], lo, hi);
      assert |xs| as real == n as real + 1.0;
      assert lo * (n as real + 1.0) == lo * n as real + lo;
      assert hi * (n as real + 1.0) == hi * n as real + hi;
    }
  }

  /** The mean lies between any bounds on the window. */
  lemma MeanIsBetween(xs: seq<real>, mean: real, lo: real, hi: real)
    requires xs != [] && IsMean(mean, xs)
    requires forall i :: 0 <= i < |xs| ==> lo <= xs[i] <= hi
    ensures lo <= mean <= hi
  {
    SumIsBetween(xs, lo, hi);
    RealScale(lo, mean, |xs| as real);
    RealScale(mean, hi, |xs| as real);
  }

  /** With a clock that does not run back, no span is negative (the epoch being 0). */
  lemma {:induction false} SpansAreNonNegative(calls: seq<Call>)
    requires forall i :: 0 <= i < |calls| ==> calls[i].now >= 0.0
    requires forall i, j :: 0 <= i <= j < |calls| ==> calls[i].now <= calls[j].now
    ensures forall x :: x in Spans(calls) ==> x >= 0.0
    ensures forall i :: 0 <= i < |calls| && i == |calls| - 1 ==> LastTick(calls) <= calls[i].now
  {
    if calls != [] {
      var before := calls[..|calls| - 1];
      SpansAreNonNegative(before);
      if before != [] {
        assert before[|before| - 1].now <= calls[|calls| - 1].now;
      }
    }
  }

  /** So the reported maximum of a non-empty window is its true maximum. */
  lemma {:induction false} MaxIsTrueMaximum(calls: seq<Call>, window: nat, max: real)
    requires forall i :: 0 <= i < |calls| ==> calls[i].now >= 0.0
    requires forall i, j :: 0 <= i <= j < |calls| ==> calls[i].now <= calls[j].now
    requires Window(Spans(calls), window) != []
    requires GreatestFromZero(max, Window(Spans(calls), window))
    ensures IsGreatest(max, Window(Spans(calls), window))
  {
    SpansAreNonNegative(calls);
    var xs := Window(Spans(calls), window);
    assert xs[0] in Spans(calls) && xs[0] in xs;
    assert 0.0 <= xs[0] <= max;
  }

  lemma {:induction false} MissedAtMostAll(spans: seq<real>, nominal: real)
    ensures MissedCount(spans, nominal) <= |spans|
  {
    if spans != [] {
      MissedAtMostAll(spans[..|spans| - 1], nominal);
    }
  }

  /** The spans of more than six fifths of the nominal one. */
  function Overlong(spans: seq<real>, nominal: real): set<int> {
    set i | 0 <= i < |spans| && 5.0 * spans[i] > 6.0 * nominal
  }

  lemma {:induction false} MissedExactly(spans: seq<real>, nominal: real)
    ensures MissedCount(spans, nominal) == |Overlong(spans, nominal)|
  {
    if spans != [] {
      var n := |spans| - 1;
      var before := Overlong(spans[..n], nominal);
      MissedExactly(spans[..n], nominal);
      if IsMissed(spans[n], nominal) {
        assert Overlong(spans, nominal) == before + {n};
      } else {
        assert Overlong(spans, nominal) == before;
      }
    }
  }

  // ----- Spans by index

  /** Call i is of the kind latched by the first one. */
  predicate Accepted(calls: seq<Call>, i: nat)
    requires i < |calls|
  {
    calls[i].kind == CallTimeSpan <==> calls[0].kind == CallTimeSpan
  }

  /** Call i measures a span. */
  predicate Measures(calls: seq<Call>, i: nat)
    requires i < |calls|
  {
    Accepted(calls, i) && calls[i].kind != CallTick
  }

  /** The reference of the next span is the clock of the last accepted call. */
  lemma {:induction false} LastTickIsLastAccepted(calls: seq<Call>, j: nat, n: nat)
    requires j < n <= |calls| && Accepted(calls, j) && forall k :: j < k < n ==> !Accepted(calls, k)
    ensures LastTick(calls[..n]) == calls[j].now
  {
    assert calls[..n][..n - 1] == calls[..n - 1];
    if j < n - 1 {
      LastTickIsLastAccepted(calls, j, n - 1);
      assert !Accepted(calls, n - 1);
    }
  }

  function Measuring(calls: seq<Call>): set<int> {
    set i | 0 <= i < |calls| && Measures(calls, i)
  }

  /** There is one span for each measuring call. */
  lemma {:induction false} SpansAreCounted(calls: seq<Call>)
    ensures |Spans(calls)| == |Measuring(calls)|
  {
    if calls != [] {
      var n := |calls| - 1;
      SpansAreCounted(calls[..n]);
      OneMoreMeasuring(calls, n);
      assert calls == calls[..n] + [calls[n]];
      Step(calls[..n], calls[n]);
    }
  }

  lemma OneMoreMeasuring(calls: seq<Call>, n: nat)
    requires n == |calls| - 1
    ensures |Measuring(calls)| == |Measuring(calls[..n])| + if Measures(calls, n) then 1 else 0
  {
    var before := Measuring(calls[..n]);
    assert forall i :: 0 <= i < n ==> Measures(calls[..n], i) == Measures(calls, i);
    if Measures(calls, n) {
      assert Measuring(calls) == before + {n};
    } else {
      assert Measuring(calls) == before;
    }
  }

  lemma {:induction false} SpansPrefix(calls: seq<Call>, n: nat)
    requires n <= |calls|
    ensures |Spans(calls[..n])| <= |Spans(calls)| && Spans(calls)[..|Spans(calls[..n])|] == Spans(calls[..n])
  {
    if n < |calls| {
      var before := calls[..|calls| - 1];
      assert before[..n] == calls[..n];
      SpansPrefix(before, n);
    } else {
      assert calls[..n] == calls;
    }
  }

  /**
   A measuring call i measures the time since the last accepted call before it, j, and comes
   after the spans of the calls before it.
   */
  lemma SpanOfCall(calls: seq<Call>, i: nat, j: nat)
    requires j < i < |calls| && Measures(calls, i)
    requires Accepted(calls, j) && forall k :: j < k < i ==> !Accepted(calls, k)
    ensures var at := |Spans(calls[..i])|;
            at < |Spans(calls)| && Spans(calls)[at] == calls[i].now - calls[j].now
  {
    SpansPrefix(calls, i + 1);
    assert calls[..i + 1][..i] == calls[..i];
    LastTickIsLastAccepted(calls, j, i);
  }

  /**
   The fields of a tracker, from its calls: the counters are the number of measuring calls and
   that of the spans over six fifths of the nominal.
   */
  lemma CountersFromCalls(f: Fields, calls: seq<Call>, nominal: real, capacity: nat)
    requires Refines(f, calls, nominal, capacity)
    ensures f.mode == if calls == [] then NoMode else if calls[0].kind == CallTimeSpan then TimeSpan else TickTock
    ensures f.cycles == |Measuring(calls)|
    ensures f.missedCycles == |Overlong(Spans(calls), nominal)|
  {
    SpansAreCounted(calls);
    MissedExactly(Spans(calls), nominal);
  }

  /** The window holds the newest spans, as many as fit, the oldest first. */
  lemma {:induction false} WindowFromCalls(f: Fields, calls: seq<Call>, nominal: real, capacity: nat)
    requires Refines(f, calls, nominal, capacity)
    ensures f.cycles == |Spans(calls)|
    ensures |f.cb| == if f.cycles < capacity then f.cycles else capacity
    ensures forall i :: 0 <= i < |f.cb| ==> f.cb[i] == Spans(calls)[f.cycles - |f.cb| + i]
  {
    WindowAt(Spans(calls), capacity);
  }

  /** A first call that measures does so from the clock's epoch. */
  lemma FirstSpan(calls: seq<Call>)
    requires calls != [] && calls[0].kind != CallTick
    ensures |Spans(calls)| > 0 && Spans(calls)[0] == calls[0].now
  {
    SpansPrefix(calls, 1);
    assert calls[..1][..0] == [];
  }

  /** The first mode used decides, for good, which calls are accepted. */
  lemma {:induction false} ModeIsLatched(calls: seq<Call>, more: seq<Call>)
    requires calls != []
    ensures Latch(calls + more) == Latch(calls) != NoMode
    ensures (forall i :: 0 <= i < |more| ==> ModeOf(more[i].kind) != Latch(calls)) ==>
              Spans(calls + more) == Spans(calls) && LastTick(calls + more) == LastTick(calls)
    decreases |more|
  {
    if more == [] {
      assert calls + more == calls;
    } else {
      var n := |more| - 1;
      assert (calls + more)[..|calls + more| - 1] == calls + more[..n];
      ModeIsLatched(calls, more[..n]);
    }
  }
}
