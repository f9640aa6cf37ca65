/**
 Schedules of copies against lists of uninterrupted operations: when an interleaving shows, in
 the region or in what an operation reports, and when it does not.
 */
module MailboxSchedules {
  import opened Mailbox

  /** Action i of the schedule is one its process can take. */
  predicate Taken(s: System, acts: seq<Action>, i: nat)
    requires i < |acts|
  {
    Can(After(s, acts[..i]), acts[i])
  }

  /** Action i copies an edited packet back into the region. */
  predicate Writes(s: System, acts: seq<Action>, i: nat)
    requires i < |acts|
  {
    acts[i].Put? && Taken(s, acts, i)
  }

  /** Action i reads a packet on which its operation refuses. */
  predicate Refused(s: System, acts: seq<Action>, i: nat)
    requires i < |acts|
  {
    acts[i].Get? && Taken(s, acts, i) && !Succeeds(acts[i].op, After(s, acts[..i]).shared)
  }

  predicate Completes(s: System, acts: seq<Action>, i: nat)
    requires i < |acts|
  {
    Writes(s, acts, i) || Refused(s, acts, i)
  }

  /** The operation that action i completes, and the packet it has read. */
  function Actor(s: System, acts: seq<Action>, i: nat): (p: Process)
    requires i < |acts| && Completes(s, acts, i)
    ensures p.Holding?
  {
    if Writes(s, acts, i) then After(s, acts[..i]).procs[acts[i].pid]
    else Holding(acts[i].op, After(s, acts[..i]).shared)
  }

  /** The operations a schedule completes, in order. */
  function Completed(s: System, acts: seq<Action>): seq<Op> {
    if acts == [] then []
    else
      var n := |acts| - 1;
      Completed(s, acts[..n]) + if Completes(s, acts, n) then [Actor(s, acts, n).op] else []
  }

  /** What they report, in the same order. */
  function Results(s: System, acts: seq<Action>): seq<bool> {
    if acts == [] then []
    else
      var n := |acts| - 1;
      Results(s, acts[..n])
      + if Completes(s, acts, n) then [Succeeds(Actor(s, acts, n).op, Actor(s, acts, n).seen)] else []
  }

  lemma {:induction false} OneResultEach(s: System, acts: seq<Action>)
    ensures |Results(s, acts)| == |Completed(s, acts)|
  {
    if acts != [] {
      OneResultEach(s, acts[..|acts| - 1]);
    }
  }

  // ----- No mixing

  /** The stamp and the bytes were written together, before, by an update that had read a bonded packet. */
  predicate Published(s: System, acts: seq<Action>, time: real, payload: seq<Byte>) {
    exists i :: 0 <= i < |acts| && Publishes(s, acts, i, time, payload)
  }

  predicate Publishes(s: System, acts: seq<Action>, i: nat, time: real, payload: seq<Byte>)
    requires i < |acts|
  {
    && Writes(s, acts, i)
    && Actor(s, acts, i).op == Update(time, payload)
    && Actor(s, acts, i).seen.bond == 1
  }

  predicate Unmixed(s: System, acts: seq<Action>, p: Packet) {
    && p.bond <= 1 && p.rt <= 1 && |p.payload| == |s.shared.payload|
    && ((p.time == s.shared.time && p.payload == s.shared.payload) || Published(s, acts, p.time, p.payload))
  }

  /** Every copy that a process holds is unmixed, and every update has the size of the region. */
  predicate HeldUnmixed(s: System, acts: seq<Action>) {
    var t := After(s, acts);
    forall i :: 0 <= i < |t.procs| && t.procs[i].Holding? ==>
                  && Unmixed(s, acts, t.procs[i].seen)
                  && (t.procs[i].op.Update? ==> |t.procs[i].op.payload| == |s.shared.payload|)
  }

  lemma UnmixedGrows(s: System, acts: seq<Action>, a: Action, p: Packet)
    requires Unmixed(s, acts, p)
    ensures Unmixed(s, acts + [a], p)
  {
    if Published(s, acts, p.time, p.payload) {
      var i :| 0 <= i < |acts| && Publishes(s, acts, i, p.time, p.payload);
      assert (acts + [a])[i] == acts[i] && (acts + [a])[..i] == acts[..i];
      assert Publishes(s, acts + [a], i, p.time, p.payload);
    }
  }

  /** What a process holds after one more action it held before, or has just copied out of the region. */
  lemma HeldStep(s: System, acts: seq<Action>, a: Action)
    requires Unmixed(s, acts, After(s, acts).shared) && HeldUnmixed(s, acts)
    ensures HeldUnmixed(s, acts + [a])
  {
    assert (acts + [a])[..|acts|] == acts;
    var before, t := After(s, acts), After(s, acts + [a]);
    UnmixedGrows(s, acts, a, before.shared);
    forall i | 0 <= i < |t.procs| && t.procs[i].Holding?
      ensures Unmixed(s, acts + [a], t.procs[i].seen)
      ensures t.procs[i].op.Update? ==> |t.procs[i].op.payload| == |s.shared.payload|
    {
      if t.procs[i] == before.procs[i] {
        UnmixedGrows(s, acts, a, before.procs[i].seen);
      }
    }
  }

  lemma RegionUnmixedStep(s: System, acts: seq<Action>, a: Action)
    requires Unmixed(s, acts, After(s, acts).shared) && HeldUnmixed(s, acts)
    ensures Unmixed(s, acts + [a], After(s, acts + [a]).shared)
  {
    var n := |acts|;
    assert (acts + [a])[..n] == acts;
    if Writes(s, acts + [a], n) {
      var p := After(s, acts).procs[a.pid];
      assert Unmixed(s, acts, p.seen);
      UnmixedGrows(s, acts, a, p.seen);
      UnmixedGrows(s, acts, a, After(s, acts).shared);
      if p.op.Update? && p.seen.bond == 1 {
        assert Publishes(s, acts + [a], n, p.op.time, p.op.payload);
      }
    } else {
      assert After(s, acts + [a]).shared == After(s, acts).shared;
      UnmixedGrows(s, acts, a, After(s, acts).shared);
    }
  }

  /**
   However the copies interleave and however stale the packets written back: the flags stay 0
   or 1, and the shared stamp and bytes are the initial ones or were written together by one
   earlier update that had read a bonded packet.  So it is with every copy any process holds.
   */
  lemma {:induction false} NoMixing(n: nat, processes: nat, acts: seq<Action>)
    ensures Unmixed(Start(n, processes), acts, After(Start(n, processes), acts).shared)
    ensures HeldUnmixed(Start(n, processes), acts)
  {
    if acts != [] {
      var before, a := acts[..|acts| - 1], acts[|acts| - 1];
      assert acts == before + [a];
      NoMixing(n, processes, before);
      HeldStep(Start(n, processes), before, a);
      RegionUnmixedStep(Start(n, processes), before, a);
    }
  }

  // ----- One operation

  /**
   What an operation read and what the region holds when it writes back differ at most in
   what the operation overwrites, and a bond would decide the same on both.
   */
  predicate Agrees(op: Op, seen: Packet, now: Packet) {
    match op
    case Bond => seen.bond == now.bond && (seen.bond != 1 ==> seen == now)
    case BreakBond => seen.time == now.time && seen.payload == now.payload
    case SetHardRT => seen.(rt := now.rt) == now
    case SetSoftRT => seen.(rt := now.rt) == now
    case Update(_, _) => seen.bond == now.bond && seen.rt == now.rt && (seen.bond != 1 ==> seen == now)
  }

  predicate FlagsOk(p: Packet) { p.bond <= 1 && p.rt <= 1 }

  /** An interrupted operation has the effect and the result of an atomic one exactly in that case. */
  lemma InterruptedExactly(op: Op, seen: Packet, now: Packet)
    requires FlagsOk(seen) && FlagsOk(now)
    ensures WriteBack(op, seen, now) == Atomic(op, now) && Succeeds(op, seen) == Succeeds(op, now) <==>
            Agrees(op, seen, now)
  {
    if op.Bond? && seen.bond != 1 && seen.(bond := 1) == now.(bond := 1) && now.bond != 1 {
      assert seen.(bond := now.bond) == now;
    }
    if op.SetHardRT? && seen.(rt := 1) == now.(rt := 1) {
      assert seen.(rt := now.rt) == now;
    }
    if op.SetSoftRT? && seen.(rt := 0) == now.(rt := 0) {
      assert seen.(rt := now.rt) == now;
    }
  }

  /** The bond flag that an operation read is still that of the region, or does not matter to it. */
  predicate FlagAgrees(op: Op, seen: Packet, now: Packet) {
    op.BreakBond? || seen.bond == now.bond
  }

  // ----- Whole schedules

  /** Flags are 0 or 1, and no process holds on to an operation that refuses. */
  predicate Consistent(s: System) {
    && FlagsOk(s.shared)
    && forall i :: 0 <= i < |s.procs| && s.procs[i].Holding? ==>
                     FlagsOk(s.procs[i].seen) && Succeeds(s.procs[i].op, s.procs[i].seen)
  }

  lemma {:induction false} StaysConsistent(s: System, acts: seq<Action>)
    requires Consistent(s)
    ensures Consistent(After(s, acts))
  {
    if acts != [] {
      StaysConsistent(s, acts[..|acts| - 1]);
      var m, a := After(s, acts[..|acts| - 1]), acts[|acts| - 1];
      if Can(m, a) && a.Put? {
        assert FlagsOk(m.procs[a.pid].seen);
      }
    }
  }

  /** The region and all results so far are those of the completed operations, one after the other. */
  predicate SerialAfter(s: System, acts: seq<Action>) {
    && After(s, acts).shared == AtomicAll(s.shared, Completed(s, acts))
    && Results(s, acts) == AtomicResults(s.shared, Completed(s, acts))
  }

  /** As far as bonding goes: the bond flag, and all results. */
  predicate BondingSerialAfter(s: System, acts: seq<Action>) {
    && After(s, acts).shared.bond == AtomicAll(s.shared, Completed(s, acts)).bond
    && Results(s, acts) == AtomicResults(s.shared, Completed(s, acts))
  }

  /** Action k, if it writes back, meets a region that agrees with what was read. */
  predicate TimelyAt(s: System, acts: seq<Action>, k: nat)
    requires k < |acts|
  {
    Writes(s, acts, k) ==>
      Agrees(Actor(s, acts, k).op, Actor(s, acts, k).seen, After(s, acts[..k]).shared)
  }

  predicate FlagTimelyAt(s: System, acts: seq<Action>, k: nat)
    requires k < |acts|
  {
    Writes(s, acts, k) ==>
      FlagAgrees(Actor(s, acts, k).op, Actor(s, acts, k).seen, After(s, acts[..k]).shared)
  }

  predicate Timely(s: System, acts: seq<Action>) {
    forall k :: 0 <= k < |acts| ==> TimelyAt(s, acts, k)
  }

  predicate FlagTimely(s: System, acts: seq<Action>) {
    forall k :: 0 <= k < |acts| ==> FlagTimelyAt(s, acts, k)
  }

  /** What action k adds to the lists, and does to the region. */
  lemma OneMoreAction(s: System, acts: seq<Action>, k: nat)
    requires k < |acts|
    ensures var ops, ops' := Completed(s, acts[..k]), Completed(s, acts[..k + 1]);
            if Completes(s, acts, k) then
              var p := Actor(s, acts, k);
              && ops' == ops + [p.op]
              && Results(s, acts[..k + 1]) == Results(s, acts[..k]) + [Succeeds(p.op, p.seen)]
              && After(s, acts[..k + 1]).shared == WriteBack(p.op, p.seen, After(s, acts[..k]).shared)
            else
              && ops' == ops
              && Results(s, acts[..k + 1]) == Results(s, acts[..k])
              && After(s, acts[..k + 1]).shared == After(s, acts[..k]).shared
  {
    assert acts[..k + 1][..k] == acts[..k];
  }

  /** One more atomic operation. */
  lemma OneMoreOp(p: Packet, ops: seq<Op>, op: Op)
    ensures AtomicAll(p, ops + [op]) == Atomic(op, AtomicAll(p, ops))
    ensures AtomicResults(p, ops + [op]) == AtomicResults(p, ops) + [Succeeds(op, AtomicAll(p, ops))]
  {
    assert (ops + [op])[..|ops|] == ops;
  }

  lemma SameLast(xs: seq<bool>, x: bool, y: bool)
    ensures xs + [x] == xs + [y] <==> x == y
  {
    assert (xs + [x])[|xs|] == x && (xs + [y])[|xs|] == y;
  }

  /** One more action keeps a serial schedule serial exactly if it is timely. */
  lemma SerialStep(s: System, acts: seq<Action>, k: nat)
    requires Consistent(s) && k < |acts| && SerialAfter(s, acts[..k])
    ensures SerialAfter(s, acts[..k + 1]) <==> TimelyAt(s, acts, k)
  {
    OneMoreAction(s, acts, k);
    if Completes(s, acts, k) {
      StaysConsistent(s, acts[..k]);
      var p, now := Actor(s, acts, k), After(s, acts[..k]).shared;
      OneMoreOp(s.shared, Completed(s, acts[..k]), p.op);
      assert FlagsOk(p.seen);
      InterruptedExactly(p.op, p.seen, now);
      SameLast(Results(s, acts[..k]), Succeeds(p.op, p.seen), Succeeds(p.op, now));
    }
  }

  lemma {:induction false} AtomicFlagsOk(p: Packet, ops: seq<Op>)
    requires FlagsOk(p)
    ensures FlagsOk(AtomicAll(p, ops))
  {
    if ops != [] {
      AtomicFlagsOk(p, ops[..|ops| - 1]);
    }
  }

  lemma BondingSerialStep(s: System, acts: seq<Action>, k: nat)
    requires Consistent(s) && k < |acts| && BondingSerialAfter(s, acts[..k])
    ensures BondingSerialAfter(s, acts[..k + 1]) <==> FlagTimelyAt(s, acts, k)
  {
    OneMoreAction(s, acts, k);
    if Completes(s, acts, k) {
      StaysConsistent(s, acts[..k]);
      AtomicFlagsOk(s.shared, Completed(s, acts[..k]));
      var p, serial := Actor(s, acts, k), AtomicAll(s.shared, Completed(s, acts[..k]));
      OneMoreOp(s.shared, Completed(s, acts[..k]), p.op);
      assert FlagsOk(p.seen);
      SameLast(Results(s, acts[..k]), Succeeds(p.op, p.seen), Succeeds(p.op, serial));
    }
  }

  lemma {:induction false} TimelyIsSerial(s: System, acts: seq<Action>, k: nat)
    requires Consistent(s) && k <= |acts|
    ensures Timely(s, acts) ==> SerialAfter(s, acts[..k])
    ensures FlagTimely(s, acts) ==> BondingSerialAfter(s, acts[..k])
  {
    if k > 0 {
      TimelyIsSerial(s, acts, k - 1);
      if Timely(s, acts) {
        SerialStep(s, acts, k - 1);
      }
      if FlagTimely(s, acts) {
        BondingSerialStep(s, acts, k - 1);
      }
    }
  }

  /**
   A schedule is at every point indistinguishable, in the region and in all results, from its
   operations executed one after the other in write-back order, exactly if every write-back
   agrees with the region it meets.
   */
  lemma SerialExactly(s: System, acts: seq<Action>)
    requires Consistent(s)
    ensures Timely(s, acts) <==> forall k :: 0 <= k <= |acts| ==> SerialAfter(s, acts[..k])
  {
    forall k: nat | k <= |acts| ensures Timely(s, acts) ==> SerialAfter(s, acts[..k]) {
      TimelyIsSerial(s, acts, k);
    }
    if forall k :: 0 <= k <= |acts| ==> SerialAfter(s, acts[..k]) {
      forall k: nat | k < |acts| ensures TimelyAt(s, acts, k) {
        SerialStep(s, acts, k);
      }
    }
  }

  /** The same for bonding alone, with the weaker condition on the bond flag alone. */
  lemma BondingSerialExactly(s: System, acts: seq<Action>)
    requires Consistent(s)
    ensures FlagTimely(s, acts) <==> forall k :: 0 <= k <= |acts| ==> BondingSerialAfter(s, acts[..k])
  {
    forall k: nat | k <= |acts| ensures FlagTimely(s, acts) ==> BondingSerialAfter(s, acts[..k]) {
      TimelyIsSerial(s, acts, k);
    }
    if forall k :: 0 <= k <= |acts| ==> BondingSerialAfter(s, acts[..k]) {
      forall k: nat | k < |acts| ensures FlagTimelyAt(s, acts, k) {
        BondingSerialStep(s, acts, k);
      }
    }
  }

  // ----- Between two successful bonds there is a breakBond

  /** Some successful bond has no later breakBond. */
  predicate Unbroken(ops: seq<Op>, results: seq<bool>)
    requires |results| == |ops|
  {
    exists k :: 0 <= k < |ops| && UnbrokenAt(ops, results, k)
  }

  predicate UnbrokenAt(ops: seq<Op>, results: seq<bool>, k: nat)
    requires k < |ops| == |results|
  {
    ops[k] == Bond && results[k] && forall j :: k < j < |ops| ==> ops[j] != BreakBond
  }

  /** Any two successful bonds have a breakBond between them. */
  predicate Alternates(ops: seq<Op>, results: seq<bool>)
    requires |results| == |ops|
  {
    forall i, j :: 0 <= i < j < |ops| && ops[i] == Bond && results[i] && ops[j] == Bond && results[j] ==>
                     exists k :: i < k < j && ops[k] == BreakBond
  }

  lemma OneMoreOutcome(ops: seq<Op>, results: seq<bool>, op: Op, result: bool)
    requires |results| == |ops|
    ensures Unbroken(ops + [op], results + [result]) <==>
            op != BreakBond && ((op == Bond && result) || Unbroken(ops, results))
    ensures Alternates(ops + [op], results + [result]) <==>
            Alternates(ops, results) && (op == Bond && result ==> !Unbroken(ops, results))
  {
    var ops', results', n := ops + [op], results + [result], |ops|;
    if op == Bond && result {
      assert UnbrokenAt(ops', results', n);
    }
    if op != BreakBond && Unbroken(ops, results) {
      var k :| 0 <= k < n && UnbrokenAt(ops, results, k);
      assert UnbrokenAt(ops', results', k);
      if op == Bond && result {
        assert ops'[k] == Bond && results'[k] && ops'[n] == Bond && results'[n];
        assert !Alternates(ops', results');
      }
    }
    if Unbroken(ops', results') {
      var k :| 0 <= k <= n && UnbrokenAt(ops', results', k);
      assert ops'[n] == op;
      if k < n {
        assert forall j :: k < j < n ==> ops[j] == ops'[j];
        assert UnbrokenAt(ops, results, k);
      }
    }
    AlternatesMore(ops, results, op, result);
  }

  lemma AlternatesMore(ops: seq<Op>, results: seq<bool>, op: Op, result: bool)
    requires |results| == |ops|
    ensures Alternates(ops + [op], results + [result]) ==> Alternates(ops, results)
    ensures Alternates(ops, results) && (op == Bond && result ==> !Unbroken(ops, results)) ==>
              Alternates(ops + [op], results + [result])
  {
    var ops', results', n := ops + [op], results + [result], |ops|;
    if Alternates(ops', results') {
      forall i, j | 0 <= i < j < n && ops[i] == Bond && results[i] && ops[j] == Bond && results[j]
        ensures exists k :: i < k < j && ops[k] == BreakBond
      {
        assert ops'[i] == Bond && results'[i] && ops'[j] == Bond && results'[j];
        var k :| i < k < j && ops'[k] == BreakBond;
        assert ops[k] == BreakBond;
      }
    }
    if Alternates(ops, results) && (op == Bond && result ==> !Unbroken(ops, results)) {
      forall i, j | 0 <= i < j <= n && ops'[i] == Bond && results'[i] && ops'[j] == Bond && results'[j]
        ensures exists k :: i < k < j && ops'[k] == BreakBond
      {
        if j < n {
          var k :| i < k < j && ops[k] == BreakBond;
          assert ops'[k] == BreakBond;
        } else {
          assert !UnbrokenAt(ops, results, i);
          var k :| i < k < n && ops[k] == BreakBond;
          assert ops'[k] == BreakBond;
        }
      }
    }
  }

  /** A successful bond holds: while it is not broken the flag shows it, and no other bond has succeeded. */
  predicate BondHolds(s: System, acts: seq<Action>) {
    OneResultEach(s, acts);
    && (Unbroken(Completed(s, acts), Results(s, acts)) ==> After(s, acts).shared.bond == 1)
    && Alternates(Completed(s, acts), Results(s, acts))
  }

  /** Action k writes back the edited copy of a packet without a bond, over a bond that nothing has broken. */
  predicate ClearsBond(s: System, acts: seq<Action>, k: nat)
    requires k < |acts|
  {
    OneResultEach(s, acts[..k]);
    && Writes(s, acts, k)
    && Actor(s, acts, k).op != BreakBond && Actor(s, acts, k).seen.bond != 1
    && Unbroken(Completed(s, acts[..k]), Results(s, acts[..k]))
  }

  lemma BondHoldsStep(s: System, acts: seq<Action>, k: nat)
    requires Consistent(s) && k < |acts| && BondHolds(s, acts[..k])
    ensures BondHolds(s, acts[..k + 1]) <==> !ClearsBond(s, acts, k)
  {
    OneMoreAction(s, acts, k);
    OneResultEach(s, acts[..k]);
    OneResultEach(s, acts[..k + 1]);
    if Completes(s, acts, k) {
      StaysConsistent(s, acts[..k]);
      var p := Actor(s, acts, k);
      assert FlagsOk(p.seen);
      OneMoreOutcome(Completed(s, acts[..k]), Results(s, acts[..k]), p.op, Succeeds(p.op, p.seen));
    }
  }

  lemma {:induction false} BondHoldsSoFar(s: System, acts: seq<Action>, k: nat)
    requires Consistent(s) && k <= |acts|
    requires forall j :: 0 <= j < k ==> !ClearsBond(s, acts, j)
    ensures BondHolds(s, acts[..k])
  {
    if k > 0 {
      BondHoldsSoFar(s, acts, k - 1);
      BondHoldsStep(s, acts, k - 1);
    }
  }

  /**
   Bonds hold throughout a schedule - between any two successful ones there is a breakBond,
   and until then the flag is set - exactly if no operation but breakBond writes back a
   packet it read without a bond while a successful bond is unbroken.
   */
  lemma BondHoldsExactly(s: System, acts: seq<Action>)
    requires Consistent(s)
    ensures (forall k :: 0 <= k < |acts| ==> !ClearsBond(s, acts, k)) <==>
            (forall k :: 0 <= k <= |acts| ==> BondHolds(s, acts[..k]))
  {
    if forall k :: 0 <= k < |acts| ==> !ClearsBond(s, acts, k) {
      forall k | 0 <= k <= |acts| ensures BondHolds(s, acts[..k]) {
        BondHoldsSoFar(s, acts, k);
      }
    }
    if forall k :: 0 <= k <= |acts| ==> BondHolds(s, acts[..k]) {
      forall k | 0 <= k < |acts| ensures !ClearsBond(s, acts, k) {
        BondHoldsStep(s, acts, k);
      }
    }
  }

  /** Of the two, the alternation alone fails exactly if it is a bond that does so. */
  lemma {:induction false} AlternatesExactly(s: System, acts: seq<Action>, n: nat)
    requires n <= |acts|
    ensures |Results(s, acts[..n])| == |Completed(s, acts[..n])|
    ensures Alternates(Completed(s, acts[..n]), Results(s, acts[..n])) <==>
            forall k :: 0 <= k < n ==> !(ClearsBond(s, acts, k) && Actor(s, acts, k).op == Bond)
  {
    OneResultEach(s, acts[..n]);
    if n > 0 {
      AlternatesExactly(s, acts, n - 1);
      OneMoreAction(s, acts, n - 1);
      if Completes(s, acts, n - 1) {
        var p := Actor(s, acts, n - 1);
        OneMoreOutcome(Completed(s, acts[..n - 1]), Results(s, acts[..n - 1]), p.op, Succeeds(p.op, p.seen));
      }
    }
  }

  /** A schedule that writes back no stale bond flag is one of them. */
  lemma {:induction false} FlagTimelyClearsNoBond(s: System, acts: seq<Action>, k: nat)
    requires Consistent(s) && k <= |acts| && FlagTimely(s, acts)
    ensures BondHolds(s, acts[..k])
    ensures forall j :: 0 <= j < k ==> !ClearsBond(s, acts, j)
  {
    if k > 0 {
      FlagTimelyClearsNoBond(s, acts, k - 1);
      assert FlagTimelyAt(s, acts, k - 1);
      BondHoldsStep(s, acts, k - 1);
    }
  }

  // ----- A condition on the schedule alone

  /** Action j writes back what action i copied out, with nothing by that process in between. */
  predicate Pair(s: System, acts: seq<Action>, i: nat, j: nat)
    requires i < j < |acts|
  {
    && acts[i].Get? && Taken(s, acts, i) && Writes(s, acts, j) && acts[i].pid == acts[j].pid
    && forall k :: i < k < j && acts[k].pid == acts[i].pid ==> !Taken(s, acts, k)
  }

  /** No process writes back between the two copies of another one's operation. */
  predicate Uninterrupted(s: System, acts: seq<Action>) {
    forall i, j :: 0 <= i < j < |acts| && Pair(s, acts, i, j) ==>
                     forall k :: i < k < j ==> !Writes(s, acts, k)
  }

  lemma {:induction false} RegionUnchanged(s: System, acts: seq<Action>, i: nat, j: nat)
    requires i <= j <= |acts|
    requires forall k :: i <= k < j ==> !Writes(s, acts, k)
    ensures After(s, acts[..i]).shared == After(s, acts[..j]).shared
  {
    if i < j {
      RegionUnchanged(s, acts, i, j - 1);
      assert acts[..j][..j - 1] == acts[..j - 1];
      assert !Writes(s, acts, j - 1);
    }
  }

  /** What a process holds it copied out at some earlier action of its own, its last one. */
  lemma {:induction false} FindGet(s: System, acts: seq<Action>, j: nat, pid: nat) returns (i: nat)
    requires forall p :: 0 <= p < |s.procs| ==> s.procs[p].Idle?
    requires j <= |acts|
    requires pid < |After(s, acts[..j]).procs| && After(s, acts[..j]).procs[pid].Holding?
    ensures i < j && acts[i].Get? && acts[i].pid == pid && Taken(s, acts, i)
    ensures After(s, acts[..j]).procs[pid].seen == After(s, acts[..i]).shared
    ensures forall k :: i < k < j && acts[k].pid == pid ==> !Taken(s, acts, k)
  {
    var n := j - 1;
    assert j > 0;
    assert acts[..j][..n] == acts[..n];
    if acts[n].pid == pid && Taken(s, acts, n) {
      i := n;
    } else {
      i := FindGet(s, acts, n, pid);
    }
  }

  /**
   If nobody writes back between the two copies of another's operation, every operation
   writes back onto what it read: the schedule is serial at every point.
   */
  lemma UninterruptedIsSerial(s: System, acts: seq<Action>)
    requires FlagsOk(s.shared) && forall p :: 0 <= p < |s.procs| ==> s.procs[p].Idle?
    requires Uninterrupted(s, acts)
    ensures Timely(s, acts) && FlagTimely(s, acts)
    ensures SerialAfter(s, acts)
  {
    forall j: nat | j < |acts| && Writes(s, acts, j)
      ensures Actor(s, acts, j).seen == After(s, acts[..j]).shared
    {
      var i := FindGet(s, acts, j, acts[j].pid);
      assert Pair(s, acts, i, j);
      assert !Writes(s, acts, i);
      RegionUnchanged(s, acts, i, j);
    }
    TimelyIsSerial(s, acts, |acts|);
    assert acts[..|acts|] == acts;
  }

  // ----- Bonding

  /**
   In a schedule that starts from the blank region and writes back no stale bond flag, the
   i-th completed operation, if a bond, succeeds exactly when a breakBond was completed
   between it and every bond completed before.
   */
  lemma BondingAlternates(n: nat, processes: nat, acts: seq<Action>, i: nat)
    requires FlagTimely(Start(n, processes), acts)
    requires i < |Completed(Start(n, processes), acts)| && Completed(Start(n, processes), acts)[i] == Bond
    ensures var ops := Completed(Start(n, processes), acts);
            var results := Results(Start(n, processes), acts);
            && |results| == |ops|
            && (results[i] <==>
                forall k :: 0 <= k < i && ops[k] == Bond ==> exists j :: k < j < i && ops[j] == BreakBond)
  {
    var s := Start(n, processes);
    TimelyIsSerial(s, acts, |acts|);
    assert acts[..|acts|] == acts;
    AtomicBondingAlternates(n, Completed(s, acts), i);
  }

  /** So it is when no process writes back between the two copies of another's operation. */
  lemma UninterruptedBondingAlternates(n: nat, processes: nat, acts: seq<Action>, i: nat)
    requires Uninterrupted(Start(n, processes), acts)
    requires i < |Completed(Start(n, processes), acts)| && Completed(Start(n, processes), acts)[i] == Bond
    ensures var ops := Completed(Start(n, processes), acts);
            var results := Results(Start(n, processes), acts);
            && |results| == |ops|
            && (results[i] <==>
                forall k :: 0 <= k < i && ops[k] == Bond ==> exists j :: k < j < i && ops[j] == BreakBond)
  {
    UninterruptedIsSerial(Start(n, processes), acts);
    BondingAlternates(n, processes, acts, i);
  }

  // ----- Two schedules that are not serial

  /** An update caught between its copies by a breakBond puts the bond back: it writes back a stale flag. */
  lemma StaleUpdateRestoresBond(n: nat, time: real, payload: seq<Byte>)
    requires |payload| == n
    ensures var acts := [Get(0, Bond), Put(0), Get(0, Update(time, payload)),
                         Get(1, BreakBond), Put(1), Put(0)];
            && After(Start(n, 2), acts[..5]).shared.bond == 0
            && After(Start(n, 2), acts).shared.bond == 1
            && !FlagTimely(Start(n, 2), acts) && !Timely(Start(n, 2), acts)
  {
    var s0 := Start(n, 2);
    var acts := [Get(0, Bond), Put(0), Get(0, Update(time, payload)), Get(1, BreakBond), Put(1), Put(0)];
    assert acts[..1] == [Get(0, Bond)];
    assert acts[..2][..1] == acts[..1];
    assert acts[..3][..2] == acts[..2];
    assert acts[..4][..3] == acts[..3];
    assert acts[..5][..4] == acts[..4];
    assert After(s0, acts[..1]) == Step(s0, acts[0]);
    assert After(s0, acts[..2]) == Step(After(s0, acts[..1]), acts[1]);
    assert After(s0, acts[..3]) == Step(After(s0, acts[..2]), acts[2]);
    assert After(s0, acts[..4]) == Step(After(s0, acts[..3]), acts[3]);
    assert After(s0, acts[..5]) == Step(After(s0, acts[..4]), acts[4]);
    assert After(s0, acts) == Step(After(s0, acts[..5]), acts[5]);
    assert !FlagTimelyAt(s0, acts, 5) && !TimelyAt(s0, acts, 5);
  }

  const RACE: seq<Action> := [Get(0, Bond), Get(1, Bond), Put(0), Put(1)]

  lemma RaceStates(n: nat)
    ensures var s, blank, bonded := Start(n, 2), Blank(n), Blank(n).(bond := 1);
            && After(s, RACE[..0]) == s
            && After(s, RACE[..1]) == System(blank, [Holding(Bond, blank), Idle])
            && After(s, RACE[..2]) == System(blank, [Holding(Bond, blank), Holding(Bond, blank)])
            && After(s, RACE[..3]) == System(bonded, [Idle, Holding(Bond, blank)])
  {
    assert RACE[..1][..0] == RACE[..0] == [];
    assert RACE[..2][..1] == RACE[..1];
    assert RACE[..3][..2] == RACE[..2];
  }

  /** Two bonds that both read a clear flag both succeed: the second writes back a stale flag. */
  lemma RacingBondsBothSucceed(n: nat)
    ensures var s := Start(n, 2);
            && Completed(s, RACE) == [Bond, Bond] && Results(s, RACE) == [true, true]
            && !FlagTimely(s, RACE) && !Timely(s, RACE)
            && ClearsBond(s, RACE, 3) && !Alternates(Completed(s, RACE), Results(s, RACE))
  {
    var s := Start(n, 2);
    RaceStates(n);
    assert !Completes(s, RACE, 0) && !Completes(s, RACE, 1);
    assert Writes(s, RACE, 2) && Writes(s, RACE, 3);
    assert Actor(s, RACE, 2) == Actor(s, RACE, 3) == Holding(Bond, Blank(n));
    assert !FlagTimelyAt(s, RACE, 3) && !TimelyAt(s, RACE, 3);
    RaceLists(s, Blank(n));
    assert UnbrokenAt([Bond], [true], 0);
    AlternatesExactly(s, RACE, 4);
    assert RACE[..4] == RACE;
  }

  lemma RaceLists(s: System, p: Packet)
    requires !Completes(s, RACE, 0) && !Completes(s, RACE, 1)
    requires Writes(s, RACE, 2) && Writes(s, RACE, 3)
    requires Actor(s, RACE, 2) == Actor(s, RACE, 3) == Holding(Bond, p)
    requires Succeeds(Bond, p)
    ensures Completed(s, RACE[..3]) == [Bond] && Results(s, RACE[..3]) == [true]
    ensures Completed(s, RACE) == [Bond, Bond] && Results(s, RACE) == [true, true]
  {
    assert RACE[..0] == [];
    OneMoreAction(s, RACE, 0);
    OneMoreAction(s, RACE, 1);
    OneMoreAction(s, RACE, 2);
    OneMoreAction(s, RACE, 3);
    assert RACE[..4] == RACE;
  }
}
