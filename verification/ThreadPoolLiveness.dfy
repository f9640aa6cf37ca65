/**
 What the pool does when it is left alone: it is never stuck while work could be done, it
 settles after a bounded number of steps, a submitted task is run exactly when fewer stop
 items than live workers are ahead of it, and `finish` followed by nothing else makes every
 worker exit.
 */
module ThreadPoolLiveness {
  import opened ThreadPool
  import opened ThreadPoolSafety

  /** A schedule without calls from outside. */
  predicate Unattended(es: seq<Step>) {
    forall i :: 0 <= i < |es| ==> !es[i].External()
  }

  function SpuriousCount(es: seq<Step>): nat {
    if es == [] then 0 else (if es[0].Spurious? then 1 else 0) + SpuriousCount(es[1..])
  }

  /** Nothing is left to be delivered, and every worker sleeps or has exited. */
  predicate Settled(s: Pool) {
    && s.ones == 0 && s.alls == 0
    && forall i :: 0 <= i < |s.workers| ==> s.workers[i].Asleep? || s.workers[i].Exited?
  }

  /** Settled states are exactly those in which the scheduler owes nobody a step. */
  lemma SettledExactly(s: Pool)
    ensures Settled(s) <==> forall e: Step :: e.Progress() ==> !Enabled(s, e)
  {
    if !Settled(s) {
      if s.alls > 0 {
        assert NotifyAll.Progress() && Enabled(s, NotifyAll);
      } else if s.ones > 0 {
        if NobodyAsleep(s.workers) {
          assert NotifyNone.Progress() && Enabled(s, NotifyNone);
        } else {
          var w: nat :| w < |s.workers| && s.workers[w].Asleep?;
          assert NotifyOne(w).Progress() && Enabled(s, NotifyOne(w));
        }
      } else {
        var w: nat :| w < |s.workers| && !s.workers[w].Asleep? && !s.workers[w].Exited?;
        if s.workers[w].Running? {
          assert Complete(w).Progress() && Enabled(s, Complete(w));
        } else {
          assert Acquire(w).Progress() && Enabled(s, Acquire(w));
        }
      }
    }
  }

  /** In a settled state the queue is empty or nobody is left to serve it. */
  lemma SettledIsIdle(s: Pool)
    requires Reachable(s) && Settled(s)
    ensures s.work == [] || AllExited(s.workers)
  {
    ReachableInv(s);
    SettledInv(s);
  }

  lemma SettledInv(s: Pool)
    requires NoLostWakeup(s) && Settled(s)
    ensures s.work == [] || AllExited(s.workers)
  {
    SumZero(s.workers, IsAwake);
  }

  /**
   No lost wake-up, as a caller sees it: with something queued and somebody alive, some step
   that the scheduler owes is enabled.
   */
  lemma QueuedWorkIsServed(s: Pool) returns (e: Step)
    requires Reachable(s) && s.work != [] && !AllExited(s.workers)
    ensures e.Progress() && Enabled(s, e)
  {
    if Settled(s) {
      SettledIsIdle(s);
    }
    SettledExactly(s);
    e :| e.Progress() && Enabled(s, e);
  }

  // ----- The bound on unattended runs

  function Effort(p: Phase): nat {
    match p
    case Running(_) => 2
    case Ready => 1
    case Woken => 1
    case _ => 0
  }

  /** How much the pool can still do without help and without spurious wake-ups. */
  function Pending(s: Pool): nat {
    Sum(s.workers, Effort) + 2 * |s.work| + 2 * s.ones + (|s.workers| + 1) * s.alls
  }

  lemma {:induction false} SumGainAtMostOneEach(ws: seq<Phase>)
    ensures Sum(WakeAll(ws), Effort) <= Sum(ws, Effort) + |ws|
  {
    if ws != [] {
      assert WakeAll(ws)[1..] == WakeAll(ws[1..]);
      SumGainAtMostOneEach(ws[1..]);
    }
  }

  lemma PendingNotifyAll(s: Pool)
    requires s.alls > 0
    ensures Pending(Next(s, NotifyAll)) + 1 <= Pending(s)
  {
    SumGainAtMostOneEach(s.workers);
    assert (|s.workers| + 1) * s.alls == (|s.workers| + 1) * (s.alls - 1) + |s.workers| + 1;
  }

  /** What notify_alls may still cause depends on nothing but their number and that of the workers. */
  lemma PendingElsewhere(s: Pool, t: Pool, gain: int)
    requires |t.workers| == |s.workers| && t.alls == s.alls
    requires Sum(t.workers, Effort) + 2 * |t.work| + 2 * t.ones + gain
          <= Sum(s.workers, Effort) + 2 * |s.work| + 2 * s.ones
    ensures Pending(t) + gain <= Pending(s)
  {
    assert (|t.workers| + 1) * t.alls == (|s.workers| + 1) * s.alls;
  }

  lemma PendingStep(s: Pool, e: Step)
    requires Enabled(s, e) && !e.External()
    ensures |Next(s, e).workers| == |s.workers|
    ensures Pending(Next(s, e)) + 1 <= Pending(s) + (if e.Spurious? then 2 else 0)
  {
    if e.NotifyAll? {
      PendingNotifyAll(s);
    } else {
      var t := Next(s, e);
      match e {
        case NotifyOne(w) => SumUpdate(s.workers, w, Woken, Effort);
        case NotifyNone =>
        case Spurious(w) => SumUpdate(s.workers, w, Woken, Effort);
        case Acquire(w) => SumUpdate(s.workers, w, t.workers[w], Effort);
        case Complete(w) => SumUpdate(s.workers, w, Ready, Effort);
      }
      PendingElsewhere(s, t, if e.Spurious? then -1 else 1);
    }
  }

  /** Every unattended run is bounded by the pending effort and its spurious wake-ups. */
  lemma {:induction false} UnattendedRunIsBounded(s: Pool, es: seq<Step>, t: Pool)
    requires Run(s, es, t) && Unattended(es)
    ensures |es| + Pending(t) <= Pending(s) + 2 * SpuriousCount(es)
    decreases |es|
  {
    if es != [] {
      PendingStep(s, es[0]);
      UnattendedRunIsBounded(Next(s, es[0]), es[1..], t);
    }
  }

  /** Left alone, every state reaches a settled one. */
  lemma {:induction false} Settles(s: Pool) returns (es: seq<Step>, t: Pool)
    ensures Run(s, es, t) && Unattended(es) && Settled(t)
    decreases Pending(s)
  {
    if Settled(s) {
      es, t := [], s;
    } else {
      SettledExactly(s);
      var e: Step :| e.Progress() && Enabled(s, e);
      PendingStep(s, e);
      var rest;
      rest, t := Settles(Next(s, e));
      es := [e] + rest;
    }
  }

  // ----- Which submitted tasks are run

  /** A worker leaves only by consuming a stop item. */
  lemma SurplusStep(s: Pool, e: Step)
    requires Enabled(s, e) && !e.External()
    ensures Live(Next(s, e)) - StopCount(Next(s, e).work) == Live(s) - StopCount(s.work)
  {
    var t := Next(s, e);
    match e
    case NotifyOne(w) => SumUpdate(s.workers, w, Woken, IsLive);
    case NotifyNone =>
    case NotifyAll =>
      SumAtMost(t.workers, s.workers, IsLive, IsLive);
      SumAtMost(s.workers, t.workers, IsLive, IsLive);
    case Spurious(w) => SumUpdate(s.workers, w, Woken, IsLive);
    case Acquire(w) => SumUpdate(s.workers, w, t.workers[w], IsLive);
    case Complete(w) => SumUpdate(s.workers, w, Ready, IsLive);
  }

  /** What has been started is done once the pool has settled. */
  lemma StartedIsDone(t: Pool, id: nat)
    requires Accounted(t) && Settled(t) && id in t.started
    ensures id in t.done
  {
    assert Placed(t, id);
    NobodyRunning(t.workers, id);
  }

  lemma FateOfPopped(s: Pool, p: nat, w: nat)
    requires 0 < p < |s.work| && Enabled(s, Acquire(w))
    ensures Live(Take(s, w)) - StopCount(Take(s, w).work[..p - 1]) == Live(s) - StopCount(s.work[..p])
  {
    SumUpdate(s.workers, w, Take(s, w).workers[w], IsLive);
    assert s.work[..p][1..] == s.work[1..][..p - 1];
  }

  lemma {:induction false} Fate(s: Pool, p: nat, es: seq<Step>, t: Pool)
    requires Inv(s) && p < |s.work| && s.work[p].Task?
    requires Run(s, es, t) && Unattended(es) && Settled(t)
    ensures s.work[p].id in t.done <==> StopCount(s.work[..p]) < Live(s)
    decreases |es|
  {
    var id := s.work[p].id;
    if es == [] {
      SettledInv(s);
      SomebodyAlive(s);
      TaskIdsMember(s.work, id);
      assert Placed(s, id);
    } else {
      var n := Next(s, es[0]);
      InvStep(s, es[0]);
      if es[0].Acquire? {
        var w := es[0].w;
        if p == 0 {
          LiveMember(s.workers, w);
          HistoryGrows(n, es[1..], t);
          InvRun(n, es[1..], t);
          assert id in n.started;
          StartedIsDone(t, id);
        } else {
          FateOfPopped(s, p, w);
          Fate(n, p - 1, es[1..], t);
        }
      } else {
        SurplusStep(s, es[0]);
        Fate(n, p, es[1..], t);
      }
    }
  }

  /**
   The fate of every queued task: the pool left alone until it settles, the task at position
   p has run to completion if and only if fewer stop items than live workers were ahead of it.
   */
  lemma QueuedTaskFate(s: Pool, p: nat, es: seq<Step>, t: Pool)
    requires Reachable(s) && p < |s.work| && s.work[p].Task?
    requires Run(s, es, t) && Unattended(es) && Settled(t)
    ensures s.work[p].id in t.done <==> StopCount(s.work[..p]) < Live(s)
  {
    ReachableInv(s);
    Fate(s, p, es, t);
  }

  /** In particular of one that is just being submitted. */
  lemma TaskFate(s: Pool, es: seq<Step>, t: Pool)
    requires Reachable(s) && Run(Next(s, Push), es, t) && Unattended(es) && Settled(t)
    ensures s.submitted in t.done <==> StopCount(s.work) < Live(s)
  {
    ReachableNext(s, Push);
    assert Next(s, Push).work[..|s.work|] == s.work;
    QueuedTaskFate(Next(s, Push), |s.work|, es, t);
  }

  lemma SomebodyAlive(s: Pool)
    ensures Live(s) > 0 <==> !AllExited(s.workers)
  {
    SumZero(s.workers, IsLive);
  }

  // ----- Shutdown

  /** While stop items cover the live workers, they keep doing so and nobody goes to sleep. */
  lemma CoveredStep(s: Pool, e: Step)
    requires Enabled(s, e) && !e.External() && StopCount(s.work) >= Live(s)
    ensures StopCount(Next(s, e).work) >= Live(Next(s, e))
    ensures forall w :: 0 <= w < |s.workers| && Next(s, e).workers[w].Asleep? ==> s.workers[w].Asleep?
    ensures Sleepers(Next(s, e)) + (if e.Spurious? then 1 else 0) <= Sleepers(s)
  {
    var t := Next(s, e);
    SurplusStep(s, e);
    match e
    case NotifyOne(w) => SumUpdate(s.workers, w, Woken, IsAsleep);
    case NotifyNone =>
    case NotifyAll => SumAtMost(t.workers, s.workers, IsAsleep, IsAsleep);
    case Spurious(w) => SumUpdate(s.workers, w, Woken, IsAsleep);
    case Acquire(w) =>
      LiveMember(s.workers, w);
      SumUpdate(s.workers, w, t.workers[w], IsAsleep);
    case Complete(w) => SumUpdate(s.workers, w, Ready, IsAsleep);
  }

  lemma {:induction false} CoveredRun(s: Pool, es: seq<Step>, t: Pool)
    requires Run(s, es, t) && Unattended(es) && StopCount(s.work) >= Live(s)
    ensures StopCount(t.work) >= Live(t) && |t.workers| == |s.workers|
    ensures forall w :: 0 <= w < |s.workers| && t.workers[w].Asleep? ==> s.workers[w].Asleep?
    ensures Sleepers(t) + SpuriousCount(es) <= Sleepers(s)
    decreases |es|
  {
    if es != [] {
      CoveredStep(s, es[0]);
      CoveredRun(Next(s, es[0]), es[1..], t);
    }
  }

  /**
   The destructor's finish, from any state at all: every unattended run after it, spurious
   wake-ups included, is no longer than a bound fixed at the finish, and no worker falls
   asleep in it.
   */
  lemma ShutdownIsBounded(s: Pool, es: seq<Step>, t: Pool)
    requires Run(Next(s, PushStops), es, t) && Unattended(es)
    ensures |es| <= Pending(Next(s, PushStops)) + 2 * Sleepers(Next(s, PushStops))
    ensures |t.workers| == |s.workers|
    ensures forall w :: 0 <= w < |t.workers| && t.workers[w].Asleep? ==> s.workers[w].Asleep?
  {
    var f := Next(s, PushStops);
    StopsCoverAfterFinish(s);
    CoveredRun(f, es, t);
    UnattendedRunIsBounded(f, es, t);
  }

  /**
   And wherever such a run stops because the scheduler owes no further step, every worker
   has exited, so that destroying the futures returns.
   */
  lemma ShutdownTerminates(s: Pool, es: seq<Step>, t: Pool)
    requires Reachable(s) && Run(Next(s, PushStops), es, t) && Unattended(es) && Settled(t)
    ensures AllExited(t.workers)
  {
    StopsCoverAfterFinish(s);
    CoveredRun(Next(s, PushStops), es, t);
    ReachableInv(s);
    assert Run(s, [PushStops] + es, t);
    InvRun(s, [PushStops] + es, t);
    SettledInv(t);
    SomebodyAlive(t);
  }

  /** A run to the exit of all workers exists: the shutdown is never blocked. */
  lemma ShutdownCompletes(s: Pool)
    requires Reachable(s)
    ensures exists es, t :: Run(Next(s, PushStops), es, t) && Unattended(es) && AllExited(t.workers)
  {
    var es, t := Settles(Next(s, PushStops));
    ShutdownTerminates(s, es, t);
  }

  /** Fewer stop items than live workers are ahead of every queued task. */
  predicate AllServed(s: Pool) {
    forall p :: 0 <= p < |s.work| && s.work[p].Task? ==> StopCount(s.work[..p]) < Live(s)
  }

  /**
   What a finish achieves, whatever was called before it: left alone until it settles,
   everything submitted has been run or cancelled, if and only if fewer stop items than live
   workers were ahead of every task in the queue.
   */
  lemma FinishRunsEverything(s: Pool, es: seq<Step>, t: Pool)
    requires Reachable(s) && Run(Next(s, PushStops), es, t) && Unattended(es) && Settled(t)
    ensures (forall id: nat :: id < s.submitted ==> id in t.done || id in t.cancelled) <==> AllServed(s)
  {
    var f := Next(s, PushStops);
    ReachableInv(s);
    InvStep(s, PushStops);
    InvRun(f, es, t);
    assert Cancel !in es;
    HistoryGrows(f, es, t);
    forall p | 0 <= p < |s.work| && s.work[p].Task?
      ensures s.work[p].id < s.submitted && s.work[p].id !in t.cancelled
      ensures s.work[p].id in t.done <==> StopCount(s.work[..p]) < Live(s)
    {
      assert f.work[..p] == s.work[..p];
      Fate(f, p, es, t);
      TaskIdsMember(s.work, s.work[p].id);
      assert Placed(s, s.work[p].id);
    }
    if AllServed(s) {
      forall id: nat | id < s.submitted
        ensures id in t.done || id in t.cancelled
      {
        assert Placed(s, id);
        if id in TaskIds(s.work) {
          TaskIdsMember(s.work, id);
        } else if id in s.started {
          assert id in t.started;
          StartedIsDone(t, id);
        }
      }
    }
  }

  /** On a pool not told to stop before, that is: unless tasks wait and no worker was ever started. */
  lemma FreshPoolIsServed(s: Pool)
    requires Stop !in s.work && Exited !in s.workers
    ensures AllServed(s) <==> s.workers != [] || TaskIds(s.work) == []
  {
    SomebodyAlive(s);
    forall p: nat | p <= |s.work| ensures StopCount(s.work[..p]) == 0 {
      NoStops(s.work[..p]);
    }
    if s.workers != [] {
      assert s.workers[0] in s.workers;
    } else if TaskIds(s.work) != [] {
      TaskIdsMember(s.work, TaskIds(s.work)[0]);
    } else {
      forall p | 0 <= p < |s.work| ensures !s.work[p].Task? {
        if s.work[p].Task? {
          TaskIdsMember(s.work, s.work[p].id);
        }
      }
    }
  }

  lemma {:induction false} NoStops(work: seq<Item>)
    requires Stop !in work
    ensures StopCount(work) == 0
  {
    if work != [] {
      NoStops(work[1..]);
    }
  }

  // ----- finish does not wait

  lemma {:induction false} ExitedStayExited(s: Pool, es: seq<Step>, t: Pool)
    requires Run(s, es, t) && Unattended(es) && AllExited(s.workers)
    ensures AllExited(t.workers)
    decreases |es|
  {
    if es != [] {
      assert !es[0].External();
      ExitedStayExited(Next(s, es[0]), es[1..], t);
    }
  }

  /**
   finish does not wait, although its comment says so.  Whatever the workers do between its
   critical section and its notification, one can rely on all of them having exited when it
   returns only if they all had before it was called.
   */
  lemma FinishDoesNotWait(s: Pool)
    ensures (forall es, t :: Run(Next(s, PushStops), es, t) && Unattended(es) && t.alls > 0 ==>
                               AllExited(Next(t, NotifyAll).workers))
       <==> AllExited(s.workers)
  {
    var f := Next(s, PushStops);
    if AllExited(s.workers) {
      forall es, t | Run(f, es, t) && Unattended(es) && t.alls > 0
        ensures AllExited(Next(t, NotifyAll).workers)
      {
        ExitedStayExited(f, es, t);
      }
    } else {
      assert Run(f, [], f) && Unattended([]) && f.alls > 0;
      var i :| 0 <= i < |s.workers| && !s.workers[i].Exited?;
      assert !Next(f, NotifyAll).workers[i].Exited?;
    }
  }

  /** They may have exited all the same: one worker that gets its stop item before the notification. */
  lemma WorkersMayBeatTheNotification()
    ensures var s := Next(INIT, Spawn);
            var t := Next(Next(s, PushStops), Acquire(0));
            && Reachable(s) && !AllExited(s.workers)
            && Run(Next(s, PushStops), [Acquire(0)], t) && t.alls > 0
            && AllExited(Next(t, NotifyAll).workers)
  {
    InitReachable();
    ReachableNext(INIT, Spawn);
    var f := Next(Next(INIT, Spawn), PushStops);
    assert !Next(INIT, Spawn).workers[0].Exited?;
    assert Run(f, [], f);
    Extend(f, [], f, Acquire(0));
    assert [] + [Acquire(0)] == [Acquire(0)];
  }

  // ----- Two pools whose finish leaves a task behind

  /** No worker was ever started. */
  lemma FinishWithoutWorkers()
    ensures var s := Next(INIT, Push);
            var t := Next(Next(Next(s, PushStops), NotifyNone), NotifyAll);
            && Reachable(s) && Run(Next(s, PushStops), [NotifyNone, NotifyAll], t)
            && Settled(t) && t.work == [Task(0)]
  {
    InitReachable();
    ReachableNext(INIT, Push);
    var f := Next(Next(INIT, Push), PushStops);
    TwoSteps(f, NotifyNone, NotifyAll);
  }

  const LEFT := INIT.(workers := [Exited])

  lemma TheWorkerLeaves()
    ensures Reachable(LEFT)
  {
    InitReachable();
    var a := Next(INIT, Spawn);
    ReachableNext(INIT, Spawn);
    ReachableNext(a, PushStops);
    var b := INIT.(work := [Stop], workers := [Ready], alls := 1);
    assert b == Next(a, PushStops);
    ReachableNext(b, Acquire(0));
    var c := INIT.(workers := [Exited], alls := 1);
    assert c == Next(b, Acquire(0));
    ReachableNext(c, NotifyAll);
    assert LEFT == Next(c, NotifyAll);
  }

  /** The only worker was told to stop before the task was queued. */
  lemma FinishAfterTheWorkersLeft()
    ensures var s := Next(LEFT, Push);
            var f := Next(s, PushStops);
            var t := LEFT.(work := [Task(0), Stop], submitted := 1);
            && Reachable(LEFT) && Reachable(s) && s.workers == [Exited]
            && Run(f, [NotifyNone, NotifyAll], t) && Settled(t)
  {
    TheWorkerLeaves();
    ReachableNext(LEFT, Push);
    var f := Next(Next(LEFT, Push), PushStops);
    assert f == LEFT.(work := [Task(0), Stop], submitted := 1, ones := 1, alls := 1);
    var g := Next(f, NotifyNone);
    assert Next(g, NotifyAll) == LEFT.(work := [Task(0), Stop], submitted := 1);
    TwoSteps(f, NotifyNone, NotifyAll);
  }

  lemma TwoSteps(s: Pool, e: Step, f: Step)
    requires Enabled(s, e) && Enabled(Next(s, e), f)
    ensures Run(s, [e, f], Next(Next(s, e), f))
  {
    assert [e, f][1..] == [f] && [f][1..] == [];
  }
}
