/**
 `flush` as a state machine over its watchdog fields, and its meaning as a function of the
 whole history of flushes.
 */
module Watchdog {
  import opened Mailbox
  import opened MailboxSchedules

  datatype ErrorCode = NoneError | UnmatchedDataDimension | UncorrectCall | WatchdogError

  datatype AccessMode = PipeServer | ShmemServer | MqueueServer | PipeClient | ShmemClient | MqueueClient
  {
    predicate IsClient() { PipeClient? || ShmemClient? || MqueueClient? }

    predicate IsServer() { PipeServer? || ShmemServer? || MqueueServer? }
  }

  datatype Config = Config(mode: AccessMode, watchdog: real)

  /** start_watchdog_time_, data_time_prev_ and flush_time_prev_. */
  datatype Watch = Watch(start: real, dataPrev: real, flushPrev: real)

  const FRESH := Watch(-1.0, 0.0, 0.0)

  /** The packet one flush read, and the clock it read afterwards. */
  datatype Sample = Sample(packet: Packet, clock: real)

  /** The return value and everything flush writes through its pointers. */
  datatype Output = Output(code: ErrorCode, time: real, payload: seq<Byte>, latency: real)

  const STALE_LIMIT: real := 0.00001

  function Abs(x: real): real { if x < 0.0 then -x else x }

  /** The stamp a flush hands out. */
  function Stamp(x: Sample): real {
    if x.packet.bond == 1 then x.packet.time else 0.0
  }

  function Bytes(x: Sample): seq<Byte> {
    if x.packet.bond == 1 then x.packet.payload else Zeros(|x.packet.payload|)
  }

  /** A client refuses data whose stamp is too far from its clock, before touching its state. */
  predicate Gated(c: Config, x: Sample) {
    c.mode.IsClient() && Abs(x.clock - Stamp(x)) > 2.0 * c.watchdog
  }

  /** The next start_watchdog_time_, and whether the watchdog has expired. */
  function Judge(c: Config, start: real, latency: real, clock: real): (real, bool) {
    if latency < c.watchdog && latency > STALE_LIMIT then (-1.0, false)
    else if latency > c.watchdog then (start, true)
    else if latency < STALE_LIMIT then
      if start == -1.0 then (clock, false) else (start, clock - start > c.watchdog)
    else (start, false)
  }

  /** The body of flush for a request of the right, non-zero, size. */
  function Flush(c: Config, w: Watch, x: Sample): (Watch, Output) {
    var latency := Stamp(x) - w.dataPrev;
    if Gated(c, x) then
      (w, Output(WatchdogError, Stamp(x), Bytes(x), latency))
    else
      var w' := w.(dataPrev := Stamp(x), flushPrev := x.clock);
      if x.packet.bond != 1 then
        (w', Output(NoneError, Stamp(x), Bytes(x), latency))
      else
        var (start, expired) := Judge(c, w.start, latency, x.clock);
        var alarm := expired && x.packet.rt == 1;
        (w'.(start := start),
         Output(if alarm then WatchdogError else NoneError,
         Stamp(x),
         if alarm && c.mode.IsServer() then Zeros(|x.packet.payload|) else Bytes(x),
         latency))
  }

  // ----- Histories

  function WatchAfter(c: Config, xs: seq<Sample>): Watch {
    if xs == [] then FRESH else Flush(c, WatchAfter(c, xs[..|xs| - 1]), xs[|xs| - 1]).0
  }

  /** What a flush that reads x hands out after the flushes xs. */
  function OutputOf(c: Config, xs: seq<Sample>, x: Sample): Output {
    Flush(c, WatchAfter(c, xs), x).1
  }

  function OutputAt(c: Config, xs: seq<Sample>, i: nat): Output
    requires i < |xs|
  {
    OutputOf(c, xs[..i], xs[i])
  }

  lemma OneMoreFlush(c: Config, xs: seq<Sample>, x: Sample)
    ensures WatchAfter(c, xs + [x]) == Flush(c, WatchAfter(c, xs), x).0
    ensures OutputAt(c, xs + [x], |xs|) == OutputOf(c, xs, x)
  {
    assert (xs + [x])[..|xs|] == xs;
  }

  /** The stamp handed out by the last flush before i that passed the client gate; 0 if none. */
  function PreviousStamp(c: Config, xs: seq<Sample>, i: nat): real
    requires i <= |xs|
  {
    if i == 0 then 0.0
    else if Gated(c, xs[i - 1]) then PreviousStamp(c, xs, i - 1)
    else Stamp(xs[i - 1])
  }

  datatype Kind =
    | Refused   // stopped by the client gate
    | Unbonded
    | Healthy   // the stamp advanced by more than the stale limit and less than the watchdog
    | Jump      // it advanced by more than the watchdog
    | Stale     // it advanced by less than the stale limit, or went back
    | Boundary  // it advanced by exactly one of the limits

  function KindOf(c: Config, xs: seq<Sample>, i: nat): Kind
    requires i < |xs|
  {
    var latency := Stamp(xs[i]) - PreviousStamp(c, xs, i);
    if Gated(c, xs[i]) then Refused
    else if xs[i].packet.bond != 1 then Unbonded
    else if STALE_LIMIT < latency < c.watchdog then Healthy
    else if latency > c.watchdog then Jump
    else if latency < STALE_LIMIT then Stale
    else Boundary
  }

  /** Flush i is the first stale one since the last healthy one, seen from flush n. */
  predicate FirstStale(c: Config, xs: seq<Sample>, n: nat, i: nat)
    requires n <= |xs|
  {
    && i < n && KindOf(c, xs, i) == Stale
    && (forall j :: i < j < n ==> KindOf(c, xs, j) != Healthy)
    && (forall j :: 0 <= j < i && KindOf(c, xs, j) == Stale ==>
                      exists h :: j < h < i && KindOf(c, xs, h) == Healthy)
  }

  /** A monotonic clock never reads below zero. */
  predicate ClocksOk(xs: seq<Sample>) {
    forall i :: 0 <= i < |xs| ==> xs[i].clock >= 0.0
  }

  lemma {:induction false} PreviousStampPrefix(c: Config, xs: seq<Sample>, n: nat, i: nat)
    requires i <= n <= |xs|
    ensures PreviousStamp(c, xs[..n], i) == PreviousStamp(c, xs, i)
  {
    if i > 0 {
      PreviousStampPrefix(c, xs, n, i - 1);
    }
  }

  lemma {:induction false} DataPrevIsPreviousStamp(c: Config, xs: seq<Sample>)
    ensures WatchAfter(c, xs).dataPrev == PreviousStamp(c, xs, |xs|)
  {
    if xs != [] {
      var n := |xs| - 1;
      DataPrevIsPreviousStamp(c, xs[..n]);
      PreviousStampPrefix(c, xs, n, n);
    }
  }

  /** The step of start_watchdog_time_, by the kind of the flush. */
  lemma StartStep(c: Config, xs: seq<Sample>)
    requires xs != []
    ensures var n := |xs| - 1;
            var before, after := WatchAfter(c, xs[..n]).start, WatchAfter(c, xs).start;
            match KindOf(c, xs, n)
            case Healthy => after == -1.0
            case Stale => after == if before == -1.0 then xs[n].clock else before
            case _ => after == before
  {
    var n := |xs| - 1;
    DataPrevIsPreviousStamp(c, xs[..n]);
    PreviousStampPrefix(c, xs, n, n);
  }

  lemma KindPrefix(c: Config, xs: seq<Sample>, n: nat, i: nat)
    requires i < n <= |xs|
    ensures KindOf(c, xs[..n], i) == KindOf(c, xs, i)
  {
    PreviousStampPrefix(c, xs, n, i);
  }

  /** What start_watchdog_time_ says about the first n flushes. */
  ghost predicate Summarises(c: Config, xs: seq<Sample>, n: nat, start: real)
    requires n <= |xs|
  {
    && (start == -1.0 <==> forall i: nat :: i < n ==> !FirstStale(c, xs, n, i))
    && (start != -1.0 ==> exists i: nat :: FirstStale(c, xs, n, i) && start == xs[i].clock)
  }

  lemma FirstStaleUnique(c: Config, xs: seq<Sample>, n: nat, i: nat, j: nat)
    requires n <= |xs| && FirstStale(c, xs, n, i) && FirstStale(c, xs, n, j)
    ensures i == j
  {
  }

  /** Without a first stale flush, no flush after the last healthy one is stale. */
  lemma {:induction false} SomeStaleHasFirst(c: Config, xs: seq<Sample>, n: nat, k: nat)
    requires n <= |xs| && k < n && KindOf(c, xs, k) == Stale
    requires forall j :: k < j < n ==> KindOf(c, xs, j) != Healthy
    ensures exists i: nat :: i <= k && FirstStale(c, xs, n, i)
    decreases k
  {
    if !FirstStale(c, xs, n, k) {
      var j :| 0 <= j < k && KindOf(c, xs, j) == Stale
               && forall h :: j < h < k ==> KindOf(c, xs, h) != Healthy;
      SomeStaleHasFirst(c, xs, n, j);
    }
  }

  /** How the first stale flush moves when one more flush is looked at. */
  lemma FirstStaleStep(c: Config, xs: seq<Sample>, n: nat, i: nat)
    requires n < |xs|
    ensures KindOf(c, xs, n) == Healthy ==> !FirstStale(c, xs, n + 1, i)
    ensures KindOf(c, xs, n) != Healthy && i < n ==> (FirstStale(c, xs, n + 1, i) <==> FirstStale(c, xs, n, i))
    ensures FirstStale(c, xs, n + 1, n) <==>
            KindOf(c, xs, n) == Stale && forall k: nat :: k < n ==> !FirstStale(c, xs, n, k)
  {
    if KindOf(c, xs, n) == Stale {
      if FirstStale(c, xs, n + 1, n) {
        forall k: nat | k < n ensures !FirstStale(c, xs, n, k) {}
      } else {
        var j :| 0 <= j < n && KindOf(c, xs, j) == Stale
                 && forall h :: j < h < n ==> KindOf(c, xs, h) != Healthy;
        SomeStaleHasFirst(c, xs, n, j);
      }
    }
  }

  lemma {:induction false} SummaryOfPrefix(c: Config, xs: seq<Sample>, n: nat)
    requires n <= |xs| && ClocksOk(xs)
    ensures Summarises(c, xs, n, WatchAfter(c, xs[..n]).start)
  {
    if n > 0 {
      var m := n - 1;
      SummaryOfPrefix(c, xs, m);
      StartStep(c, xs[..n]);
      assert xs[..n][..m] == xs[..m];
      KindPrefix(c, xs, n, m);
      forall i: nat
        ensures KindOf(c, xs, m) == Healthy ==> !FirstStale(c, xs, n, i)
        ensures KindOf(c, xs, m) != Healthy && i < m ==> (FirstStale(c, xs, n, i) <==> FirstStale(c, xs, m, i))
      {
        FirstStaleStep(c, xs, m, i);
      }
      FirstStaleStep(c, xs, m, m);
      var before := WatchAfter(c, xs[..m]).start;
      if before != -1.0 {
        var i: nat :| FirstStale(c, xs, m, i) && before == xs[i].clock;
        if KindOf(c, xs, m) != Healthy {
          assert FirstStale(c, xs, n, i);
        }
      } else if KindOf(c, xs, m) == Stale {
        assert FirstStale(c, xs, n, m);
      }
    }
  }

  /**
   start_watchdog_time_ is an exact summary of the whole history: -1 when no flush since the
   last healthy one was stale, and otherwise the clock of the first that was.  Jumps,
   boundary latencies, unbonded and refused flushes never move it.
   */
  lemma StartSummarisesHistory(c: Config, xs: seq<Sample>)
    requires ClocksOk(xs)
    ensures Summarises(c, xs, |xs|, WatchAfter(c, xs).start)
  {
    assert xs[..|xs|] == xs;
    SummaryOfPrefix(c, xs, |xs|);
  }

  // ----- What a flush hands out, from the packets

  /** A flush that a client's gate stops: stamp and clock are more than two watchdogs apart. */
  predicate TooFar(c: Config, x: Sample) {
    && (c.mode == PipeClient || c.mode == ShmemClient || c.mode == MqueueClient)
    && var stamp := if x.packet.bond == 1 then x.packet.time else 0.0;
    !(-(c.watchdog + c.watchdog) <= x.clock - stamp <= c.watchdog + c.watchdog)
  }

  lemma RefusedExactly(c: Config, xs: seq<Sample>, i: nat)
    requires i < |xs|
    ensures KindOf(c, xs, i) == Refused <==> TooFar(c, xs[i])
    ensures KindOf(c, xs, i) == Refused ==>
              && OutputAt(c, xs, i).code == WatchdogError
              && WatchAfter(c, xs[..i + 1]) == WatchAfter(c, xs[..i])
  {
    assert xs[..i + 1][..i] == xs[..i];
  }

  /**
   Delivery: a bonded flush hands out the packet's stamp, and its bytes unless it is a server's
   that alarms; an unbonded one hands out stamp 0 and zeros.
   */
  lemma DeliveredExactly(c: Config, xs: seq<Sample>, i: nat)
    requires i < |xs|
    ensures var p, out := xs[i].packet, OutputAt(c, xs, i);
            if p.bond != 1 then
              out.time == 0.0 && out.payload == Zeros(|p.payload|)
            else if out.code == WatchdogError && c.mode.IsServer() then
              out.time == p.time && out.payload == Zeros(|p.payload|)
            else
              out.time == p.time && out.payload == p.payload
  {
  }

  /** j is the last flush before n that was not refused. */
  predicate LastAccepted(c: Config, xs: seq<Sample>, n: nat, j: nat)
    requires n <= |xs|
  {
    j < n && !TooFar(c, xs[j]) && forall k :: j < k < n ==> TooFar(c, xs[k])
  }

  /** data_time_prev_ and flush_time_prev_ are stamp and clock of that flush, and 0 without one. */
  lemma {:induction false} FieldsAreLastAccepted(c: Config, xs: seq<Sample>, n: nat, j: nat)
    requires n <= |xs|
    requires LastAccepted(c, xs, n, j) || forall k :: 0 <= k < n ==> TooFar(c, xs[k])
    ensures var w := WatchAfter(c, xs[..n]);
            if LastAccepted(c, xs, n, j) then w.dataPrev == OutputAt(c, xs, j).time && w.flushPrev == xs[j].clock
            else w.dataPrev == 0.0 && w.flushPrev == 0.0
  {
    if n > 0 {
      assert xs[..n][..n - 1] == xs[..n - 1];
      RefusedExactly(c, xs, n - 1);
      if j != n - 1 || TooFar(c, xs[n - 1]) {
        FieldsAreLastAccepted(c, xs, n - 1, j);
      }
    }
  }

  /** The latency is the stamp handed out against the one handed out by the last flush not refused. */
  lemma LatencyExactly(c: Config, xs: seq<Sample>, i: nat, j: nat)
    requires i < |xs| && (LastAccepted(c, xs, i, j) || forall k :: 0 <= k < i ==> TooFar(c, xs[k]))
    ensures OutputAt(c, xs, i).latency ==
            OutputAt(c, xs, i).time - if LastAccepted(c, xs, i, j) then OutputAt(c, xs, j).time else 0.0
  {
    FieldsAreLastAccepted(c, xs, i, j);
  }

  /** The kind of a bonded flush that is not refused, from the latency that it hands out. */
  lemma KindExactly(c: Config, xs: seq<Sample>, i: nat)
    requires i < |xs| && xs[i].packet.bond == 1 && !TooFar(c, xs[i])
    ensures var kind, latency := KindOf(c, xs, i), OutputAt(c, xs, i).latency;
            && (kind == Healthy <==> 0.00001 < latency < c.watchdog)
            && (kind == Jump <==> latency > c.watchdog)
            && (kind == Stale <==> latency < 0.00001 && latency <= c.watchdog)
  {
    DataPrevIsPreviousStamp(c, xs[..i]);
    PreviousStampPrefix(c, xs, i, i);
  }

  // ----- When the alarm is raised

  /** The stamp jumped, or it is stale and was first found so more than a watchdog ago. */
  ghost predicate Expired(c: Config, xs: seq<Sample>, i: nat)
    requires i < |xs|
  {
    || KindOf(c, xs, i) == Jump
    || (KindOf(c, xs, i) == Stale
        && exists k: nat :: FirstStale(c, xs, i, k) && xs[i].clock - xs[k].clock > c.watchdog)
  }

  /** Every return value of every flush of every history, from the history alone. */
  lemma AlarmExactly(c: Config, xs: seq<Sample>, i: nat)
    requires i < |xs| && ClocksOk(xs)
    ensures OutputAt(c, xs, i).code ==
            if Gated(c, xs[i]) || (Expired(c, xs, i) && xs[i].packet.rt == 1) then WatchdogError else NoneError
  {
    SummaryOfPrefix(c, xs, i);
    DataPrevIsPreviousStamp(c, xs[..i]);
    PreviousStampPrefix(c, xs, i, i);
    var start := WatchAfter(c, xs[..i]).start;
    if start != -1.0 {
      var k: nat :| FirstStale(c, xs, i, k) && start == xs[k].clock;
      if Expired(c, xs, i) && KindOf(c, xs, i) == Stale {
        var k': nat :| FirstStale(c, xs, i, k') && xs[i].clock - xs[k'].clock > c.watchdog;
        FirstStaleUnique(c, xs, i, k, k');
      }
    }
  }

  /** Between a and b the mailbox is bonded and in hard RT and its stamp does not change. */
  predicate Frozen(xs: seq<Sample>, a: nat, b: nat) {
    && a < b <= |xs|
    && forall i :: a <= i < b ==>
                     xs[i].packet.bond == 1 && xs[i].packet.rt == 1 && xs[i].packet.time == xs[a].packet.time
  }

  predicate ClockMonotone(xs: seq<Sample>) {
    forall i, j :: 0 <= i <= j < |xs| ==> xs[i].clock <= xs[j].clock
  }

  lemma FrozenIsStale(c: Config, xs: seq<Sample>, a: nat, b: nat, i: nat)
    requires c.mode.IsServer() && c.watchdog >= 0.0 && Frozen(xs, a, b) && a < i < b
    ensures KindOf(c, xs, i) == Stale
  {
    assert PreviousStamp(c, xs, i) == Stamp(xs[i - 1]);
  }

  /**
   Bounded detection: once a server has read a frozen stamp twice, every flush more than one
   watchdog after that second reading raises the alarm and hands out zeros, until the stamp
   changes.
   */
  lemma FreezeIsDetected(c: Config, xs: seq<Sample>, a: nat, b: nat, i: nat)
    requires c.mode.IsServer() && c.watchdog >= 0.0
    requires ClocksOk(xs) && ClockMonotone(xs) && Frozen(xs, a, b)
    requires a + 1 < i < b && xs[i].clock - xs[a + 1].clock > c.watchdog
    ensures OutputAt(c, xs, i).code == WatchdogError
    ensures OutputAt(c, xs, i).payload == Zeros(|xs[i].packet.payload|)
  {
    forall j | a < j <= i ensures KindOf(c, xs, j) == Stale {
      FrozenIsStale(c, xs, a, b, j);
    }
    SomeStaleHasFirst(c, xs, i, a + 1);
    var k: nat :| k <= a + 1 && FirstStale(c, xs, i, k);
    assert xs[k].clock <= xs[a + 1].clock;
    AlarmExactly(c, xs, i);
    assert Expired(c, xs, i);
  }

  /** The packets of the flushes are what the region holds after growing prefixes of a schedule. */
  predicate SampledFrom(s: System, acts: seq<Action>, at: seq<nat>, xs: seq<Sample>) {
    && |at| == |xs|
    && (forall i :: 0 <= i < |at| ==> at[i] <= |acts|)
    && (forall i, j :: 0 <= i <= j < |at| ==> at[i] <= at[j])
    && (forall i :: 0 <= i < |at| ==> xs[i].packet == After(s, acts[..at[i]]).shared)
  }

  /**
   From writer to alarm: while nothing is written back into a bonded hard-RT region, a server
   that flushes it at any points of the schedule alarms, with zeros, at every flush more than
   a watchdog after its second one - whatever the processes copy out or hold meanwhile.
   */
  lemma SilenceIsDetected(c: Config, n: nat, processes: nat, acts: seq<Action>,
                          at: seq<nat>, xs: seq<Sample>, a: nat, b: nat, i: nat)
    requires c.mode.IsServer() && c.watchdog >= 0.0 && ClocksOk(xs) && ClockMonotone(xs)
    requires SampledFrom(Start(n, processes), acts, at, xs) && a + 1 < i < b <= |xs|
    requires xs[a].packet.bond == 1 && xs[a].packet.rt == 1
    requires forall k :: at[a] <= k < at[b - 1] ==> !Writes(Start(n, processes), acts, k)
    requires xs[i].clock - xs[a + 1].clock > c.watchdog
    ensures OutputAt(c, xs, i).code == WatchdogError && OutputAt(c, xs, i).payload == Zeros(n)
  {
    var s := Start(n, processes);
    forall j | a <= j < b ensures xs[j].packet == xs[a].packet {
      RegionUnchanged(s, acts, at[a], at[j]);
    }
    NoMixing(n, processes, acts[..at[i]]);
    FreezeIsDetected(c, xs, a, b, i);
  }

  // ----- The RT flag only masks

  /** The same flushes, but for the RT flag. */
  predicate SameButRT(xs: seq<Sample>, ys: seq<Sample>) {
    && |xs| == |ys|
    && forall i :: 0 <= i < |xs| ==> ys[i] == xs[i].(packet := xs[i].packet.(rt := ys[i].packet.rt))
  }

  lemma {:induction false} RTDoesNotReachState(c: Config, xs: seq<Sample>, ys: seq<Sample>)
    requires SameButRT(xs, ys)
    ensures WatchAfter(c, xs) == WatchAfter(c, ys)
  {
    if xs != [] {
      RTDoesNotReachState(c, xs[..|xs| - 1], ys[..|ys| - 1]);
      var i := |xs| - 1;
      assert ys[i] == xs[i].(packet := xs[i].packet.(rt := ys[i].packet.rt));
    }
  }

  /**
   Two histories that differ in the RT flag keep the same watchdog state throughout; an
   output differs in its code only where exactly the hard one alarms, in its payload only
   there and only for a server, and never in its stamp or latency.
   */
  lemma RTFlagOnlyMasks(c: Config, xs: seq<Sample>, ys: seq<Sample>, i: nat)
    requires SameButRT(xs, ys) && i < |xs| && ClocksOk(xs)
    ensures WatchAfter(c, xs[..i]) == WatchAfter(c, ys[..i])
    ensures var p, q := OutputAt(c, xs, i), OutputAt(c, ys, i);
            && p.time == q.time && p.latency == q.latency
            && (p.code != q.code <==>
                Expired(c, xs, i) && !Gated(c, xs[i]) && (xs[i].packet.rt == 1 <==> ys[i].packet.rt != 1))
            && (p.code == q.code ==> p == q)
            && (!c.mode.IsServer() ==> p.payload == q.payload)
  {
    assert SameButRT(xs[..i], ys[..i]);
    RTDoesNotReachState(c, xs[..i], ys[..i]);
    assert ys[i] == xs[i].(packet := xs[i].packet.(rt := ys[i].packet.rt));
    AlarmExactly(c, xs, i);
    ExpiredIgnoresRT(c, xs, ys, i);
    AlarmExactly(c, ys, i);
  }

  lemma KindIgnoresRT(c: Config, xs: seq<Sample>, ys: seq<Sample>, i: nat)
    requires SameButRT(xs, ys) && i < |xs|
    ensures KindOf(c, xs, i) == KindOf(c, ys, i)
  {
    PreviousStampIgnoresRT(c, xs, ys, i);
    assert ys[i] == xs[i].(packet := xs[i].packet.(rt := ys[i].packet.rt));
  }

  lemma {:induction false} PreviousStampIgnoresRT(c: Config, xs: seq<Sample>, ys: seq<Sample>, i: nat)
    requires SameButRT(xs, ys) && i <= |xs|
    ensures PreviousStamp(c, xs, i) == PreviousStamp(c, ys, i)
  {
    if i > 0 {
      PreviousStampIgnoresRT(c, xs, ys, i - 1);
      assert ys[i - 1] == xs[i - 1].(packet := xs[i - 1].packet.(rt := ys[i - 1].packet.rt));
    }
  }

  lemma ExpiredIgnoresRT(c: Config, xs: seq<Sample>, ys: seq<Sample>, i: nat)
    requires SameButRT(xs, ys) && i < |xs| && ClocksOk(xs)
    ensures Expired(c, xs, i) <==> Expired(c, ys, i)
  {
    forall j | 0 <= j < |xs| ensures KindOf(c, xs, j) == KindOf(c, ys, j) && xs[j].clock == ys[j].clock {
      KindIgnoresRT(c, xs, ys, j);
      assert ys[j] == xs[j].(packet := xs[j].packet.(rt := ys[j].packet.rt));
    }
    forall k: nat ensures FirstStale(c, xs, i, k) <==> FirstStale(c, ys, i, k) {
      FirstStaleIgnoresRT(c, xs, ys, i, k);
    }
    if Expired(c, xs, i) && KindOf(c, xs, i) == Stale {
      var k: nat :| FirstStale(c, xs, i, k) && xs[i].clock - xs[k].clock > c.watchdog;
      assert FirstStale(c, ys, i, k) && ys[i].clock - ys[k].clock > c.watchdog;
    }
    if Expired(c, ys, i) && KindOf(c, ys, i) == Stale {
      var k: nat :| FirstStale(c, ys, i, k) && ys[i].clock - ys[k].clock > c.watchdog;
      assert FirstStale(c, xs, i, k) && xs[i].clock - xs[k].clock > c.watchdog;
    }
  }

  lemma FirstStaleIgnoresRT(c: Config, xs: seq<Sample>, ys: seq<Sample>, n: nat, i: nat)
    requires n <= |xs| == |ys|
    requires forall j :: 0 <= j < |xs| ==> KindOf(c, xs, j) == KindOf(c, ys, j)
    ensures FirstStale(c, xs, n, i) <==> FirstStale(c, ys, n, i)
  {
  }

  // ----- What reaches the consumer

  /**
   Over every schedule of the processes, every earlier history of this endpoint and every
   clock: what a server hands out is all zeros when it alarms, zeros with stamp 0 when the
   mailbox is not bonded, and otherwise the stamp and bytes of one single earlier published update, or
   the initial zeros.
   */
  lemma ServerOutputIsSafe(c: Config, n: nat, processes: nat, acts: seq<Action>,
                           w: Watch, clock: real)
    requires c.mode.IsServer()
    ensures var x := Sample(After(Start(n, processes), acts).shared, clock);
            var out := Flush(c, w, x).1;
            && (out.code == WatchdogError ==> out.payload == Zeros(n))
            && (x.packet.bond != 1 ==> out.payload == Zeros(n) && out.time == 0.0)
            && (out.code == NoneError && x.packet.bond == 1 ==>
                  || (out.time == 0.0 && out.payload == Zeros(n))
                  || Published(Start(n, processes), acts, out.time, out.payload))
  {
    NoMixing(n, processes, acts);
  }

  /**
   A client has no such guarantee: it returns WATCHDOG together with live bytes exactly when
   it reads a bonded packet that is not blank and either its gate refuses it or the watchdog
   has expired in hard RT.
   */
  lemma ClientAlarmsWithLiveBytes(c: Config, xs: seq<Sample>, i: nat)
    requires c.mode.IsClient() && i < |xs| && ClocksOk(xs)
    ensures var out := OutputAt(c, xs, i);
            var p := xs[i].packet;
            out.code == WatchdogError && out.payload != Zeros(|p.payload|) <==>
            && p.bond == 1 && p.payload != Zeros(|p.payload|)
            && (Gated(c, xs[i]) || (Expired(c, xs, i) && p.rt == 1))
  {
    AlarmExactly(c, xs, i);
  }

  /** One such flush: a client's first, of a live packet stamped long ago. */
  lemma ClientAlarmsAtOnce()
    ensures var c, p := Config(ShmemClient, 1.0), Packet(1, 1, 5.0, [7]);
            var out := OutputAt(c, [Sample(p, 100.0)], 0);
            out.code == WatchdogError && out.payload == [7]
  {
  }

  /**
   An unbonded flush resets the reference stamp to 0 (as construction does), so the first
   bonded one after it is a jump exactly if its stamp is more than a watchdog from 0, however
   short the interruption was.  In hard RT it alarms then, and otherwise only if its stamp is
   stale and one before the interruption was first found so more than a watchdog ago.
   */
  lemma BondingAgainIsAJump(c: Config, xs: seq<Sample>, i: nat)
    requires c.mode.IsServer() && i < |xs| && ClocksOk(xs)
    requires i == 0 || xs[i - 1].packet.bond != 1
    requires xs[i].packet.bond == 1 && xs[i].packet.rt == 1
    ensures KindOf(c, xs, i) == Jump <==> xs[i].packet.time > c.watchdog
    ensures OutputAt(c, xs, i).code == WatchdogError <==>
            || xs[i].packet.time > c.watchdog
            || (xs[i].packet.time < STALE_LIMIT
                && exists k: nat :: FirstStale(c, xs, i, k) && xs[i].clock - xs[k].clock > c.watchdog)
  {
    AlarmExactly(c, xs, i);
  }
}
