/**
 What every step of the pool keeps, and the safety properties that follow for whole runs:
 no lost wake-up, first-in-first-out starts, exactly-once accounting, cancelled tasks never
 start, tasks queued before the first `finish` are drained, and tasks queued behind enough
 stop items never start.
 */
module ThreadPoolSafety {
  import opened ThreadPool

  // ----- The invariant

  predicate Ascending(s: seq<nat>) {
    forall i, j :: 0 <= i < j < |s| ==> s[i] < s[j]
  }

  function Count(ids: seq<nat>, id: nat): nat { multiset(ids)[id] }

  function OneRunning(p: Phase, id: nat): nat { if p == Running(id) then 1 else 0 }

  /** How many workers are inside the body of task id. */
  function RunningCount(ws: seq<Phase>, id: nat): nat {
    if ws == [] then 0 else OneRunning(ws[0], id) + RunningCount(ws[1..], id)
  }

  /**
   A sleeper that no notify_all is on its way to implies that the queued items are covered by
   undelivered notify_ones and by workers that will look at the queue anyway.
   */
  predicate NoLostWakeup(s: Pool) {
    NobodyAsleep(s.workers) || s.alls > 0 || |s.work| <= s.ones + Awake(s)
  }

  /** Started tasks followed by queued ones are in submission order. */
  predicate InOrder(s: Pool) {
    Ascending(s.started + TaskIds(s.work))
  }

  /** Submission id is started, queued or cancelled, once; if started, it is done or running. */
  predicate Placed(s: Pool, id: nat) {
    && Count(s.started, id) + Count(TaskIds(s.work), id) + Count(s.cancelled, id)
       == (if id < s.submitted then 1 else 0)
    && Count(s.started, id) == Count(s.done, id) + RunningCount(s.workers, id)
  }

  ghost predicate Accounted(s: Pool) {
    forall id: nat :: Placed(s, id)
  }

  ghost predicate Inv(s: Pool) {
    NoLostWakeup(s) && InOrder(s) && Accounted(s)
  }

  // ----- Counting facts

  lemma {:induction false} RunningUpdate(ws: seq<Phase>, w: nat, p: Phase, id: nat)
    requires w < |ws|
    ensures RunningCount(ws[w := p], id) == RunningCount(ws, id) - OneRunning(ws[w], id) + OneRunning(p, id)
  {
    if w == 0 {
      assert ws[w := p][1..] == ws[1..];
    } else {
      assert ws[w := p][1..] == ws[1..][w - 1 := p];
      RunningUpdate(ws[1..], w - 1, p, id);
    }
  }

  lemma {:induction false} RunningAppend(ws: seq<Phase>, p: Phase, id: nat)
    ensures RunningCount(ws + [p], id) == RunningCount(ws, id) + OneRunning(p, id)
  {
    if ws == [] {
      assert ws + [p] == [p];
    } else {
      assert (ws + [p])[1..] == ws[1..] + [p];
      RunningAppend(ws[1..], p, id);
    }
  }

  lemma {:induction false} RunningSame(ws: seq<Phase>, vs: seq<Phase>, id: nat)
    requires |ws| == |vs|
    requires forall i :: 0 <= i < |ws| ==> OneRunning(ws[i], id) == OneRunning(vs[i], id)
    ensures RunningCount(ws, id) == RunningCount(vs, id)
  {
    if ws != [] {
      assert OneRunning(ws[0], id) == OneRunning(vs[0], id);
      RunningSame(ws[1..], vs[1..], id);
    }
  }

  lemma {:induction false} NobodyRunning(ws: seq<Phase>, id: nat)
    requires forall i :: 0 <= i < |ws| ==> !ws[i].Running?
    ensures RunningCount(ws, id) == 0
  {
    if ws != [] {
      NobodyRunning(ws[1..], id);
    }
  }

  /** Submission numbers found anywhere were handed out before. */
  lemma QueuedBelow(s: Pool, id: nat)
    requires Accounted(s)
    requires id in s.started || id in TaskIds(s.work) || id in s.cancelled
    ensures id < s.submitted
  {
    assert Placed(s, id);
  }

  // ----- Preservation, one clause at a time

  /** A worker that is awake before and after its step leaves the sleepers as they were. */
  lemma SameSleepers(ws: seq<Phase>, w: nat, p: Phase)
    requires w < |ws| && !ws[w].Asleep? && !p.Asleep?
    ensures NobodyAsleep(ws[w := p]) <==> NobodyAsleep(ws)
  {
    forall i | 0 <= i < |ws| ensures ws[w := p][i].Asleep? <==> ws[i].Asleep? {}
    if NobodyAsleep(ws[w := p]) {
      forall i | 0 <= i < |ws| ensures !ws[i].Asleep? {
        assert !ws[w := p][i].Asleep?;
      }
    }
  }

  lemma NoLostWakeupTake(s: Pool, w: nat)
    requires NoLostWakeup(s) && Enabled(s, Acquire(w))
    ensures NoLostWakeup(Take(s, w))
  {
    var t := Take(s, w);
    SumUpdate(s.workers, w, t.workers[w], IsAwake);
    if s.work != [] {
      SameSleepers(s.workers, w, t.workers[w]);
    }
  }

  lemma NoLostWakeupStep(s: Pool, e: Step)
    requires NoLostWakeup(s) && Enabled(s, e)
    ensures NoLostWakeup(Next(s, e))
  {
    match e
    case Push =>
    case PushStops =>
    case Cancel =>
    case Spawn =>
      SumAppend(s.workers, Ready, IsAwake);
    case NotifyOne(w) => SumUpdate(s.workers, w, Woken, IsAwake);
    case NotifyNone =>
    case NotifyAll =>
    case Spurious(w) => SumUpdate(s.workers, w, Woken, IsAwake);
    case Acquire(w) => NoLostWakeupTake(s, w);
    case Complete(w) =>
      SumUpdate(s.workers, w, Ready, IsAwake);
      SameSleepers(s.workers, w, Ready);
  }

  lemma PopFront(work: seq<Item>)
    requires work != []
    ensures TaskIds(work) == (if work[0].Task? then [work[0].id] else []) + TaskIds(work[1..])
  {
  }

  lemma InOrderStep(s: Pool, e: Step)
    requires InOrder(s) && Accounted(s) && Enabled(s, e)
    ensures InOrder(Next(s, e))
  {
    var t := Next(s, e);
    match e
    case Push =>
      TaskIdsConcat(s.work, [Task(s.submitted)]);
      assert TaskIds([Task(s.submitted)]) == [s.submitted];
      forall k | 0 <= k < |s.started + TaskIds(s.work)|
        ensures (s.started + TaskIds(s.work))[k] < s.submitted
      {
        QueuedBelow(s, (s.started + TaskIds(s.work))[k]);
      }
      assert t.started + TaskIds(t.work) == s.started + TaskIds(s.work) + [s.submitted];
    case PushStops =>
      TaskIdsConcat(s.work, Stops(|s.workers|));
      StopsOnly(|s.workers|);
      assert t.started + TaskIds(t.work) == s.started + TaskIds(s.work);
    case Cancel =>
      assert t.started + TaskIds(t.work) == s.started;
      assert s.started == (s.started + TaskIds(s.work))[..|s.started|];
    case Acquire(w) =>
      if s.work != [] {
        PopFront(s.work);
        assert t.started + TaskIds(t.work) == s.started + TaskIds(s.work);
      }
    case _ =>
  }

  lemma PlacedTake(s: Pool, w: nat, id: nat)
    requires Placed(s, id) && Enabled(s, Acquire(w))
    ensures Placed(Take(s, w), id)
  {
    RunningUpdate(s.workers, w, Take(s, w).workers[w], id);
    if s.work != [] {
      PopFront(s.work);
    }
  }

  lemma PlacedPush(s: Pool, id: nat)
    requires Placed(s, id)
    ensures Placed(Next(s, Push), id) && Placed(Next(s, PushStops), id)
  {
    TaskIdsConcat(s.work, [Task(s.submitted)]);
    assert TaskIds([Task(s.submitted)]) == [s.submitted];
    TaskIdsConcat(s.work, Stops(|s.workers|));
    StopsOnly(|s.workers|);
    assert TaskIds(s.work + Stops(|s.workers|)) == TaskIds(s.work);
  }

  lemma PlacedStep(s: Pool, e: Step, id: nat)
    requires Placed(s, id) && Enabled(s, e)
    ensures Placed(Next(s, e), id)
  {
    match e
    case Push => PlacedPush(s, id);
    case PushStops => PlacedPush(s, id);
    case Cancel =>
    case Spawn => RunningAppend(s.workers, Ready, id);
    case NotifyOne(w) => RunningUpdate(s.workers, w, Woken, id);
    case NotifyNone =>
    case NotifyAll => RunningSame(WakeAll(s.workers), s.workers, id);
    case Spurious(w) => RunningUpdate(s.workers, w, Woken, id);
    case Acquire(w) => PlacedTake(s, w, id);
    case Complete(w) => RunningUpdate(s.workers, w, Ready, id);
  }

  lemma AccountedStep(s: Pool, e: Step)
    requires Accounted(s) && Enabled(s, e)
    ensures Accounted(Next(s, e))
  {
    forall id: nat ensures Placed(Next(s, e), id) {
      PlacedStep(s, e, id);
    }
  }

  lemma InvStep(s: Pool, e: Step)
    requires Inv(s) && Enabled(s, e)
    ensures Inv(Next(s, e))
  {
    NoLostWakeupStep(s, e);
    InOrderStep(s, e);
    AccountedStep(s, e);
  }

  lemma {:induction false} InvRun(s: Pool, es: seq<Step>, t: Pool)
    requires Inv(s) && Run(s, es, t)
    ensures Inv(t)
    decreases |es|
  {
    if es != [] {
      InvStep(s, es[0]);
      InvRun(Next(s, es[0]), es[1..], t);
    }
  }

  lemma ReachableInv(s: Pool)
    requires Reachable(s)
    ensures Inv(s)
  {
    var es :| Run(INIT, es, s);
    InvRun(INIT, es, s);
  }

  // ----- What the invariant says about every reachable state

  /** Every submission is in exactly one place, and nothing else is anywhere. */
  lemma ExactlyOnePlace(s: Pool, id: nat)
    requires Reachable(s)
    ensures Count(TaskIds(s.work), id) + RunningCount(s.workers, id)
            + Count(s.done, id) + Count(s.cancelled, id)
         == if id < s.submitted then 1 else 0
  {
    ReachableInv(s);
    assert Placed(s, id);
  }

  lemma AscendingApart(a: seq<nat>, b: seq<nat>, x: nat, y: nat)
    requires Ascending(a + b) && x in a && y in b
    ensures x < y
  {
    var i :| 0 <= i < |a| && a[i] == x;
    var j :| 0 <= j < |b| && b[j] == y;
    assert (a + b)[i] == x && (a + b)[|a| + j] == y;
  }

  /**
   Starts happen in submission order, and a start never overtakes: whatever was submitted
   before a started task has itself been started, or was cancelled.
   */
  lemma FirstInFirstOut(s: Pool)
    requires Reachable(s)
    ensures Ascending(s.started)
    ensures forall id, k :: id in s.started && 0 <= k < id ==> k in s.started || k in s.cancelled
  {
    ReachableInv(s);
    assert s.started == (s.started + TaskIds(s.work))[..|s.started|];
    forall id, k | id in s.started && 0 <= k < id
      ensures k in s.started || k in s.cancelled
    {
      QueuedBelow(s, id);
      assert Placed(s, k);
      if k in TaskIds(s.work) {
        AscendingApart(s.started, TaskIds(s.work), id, k);
      }
    }
  }

  // ----- History only grows

  lemma {:induction false} HistoryGrows(s: Pool, es: seq<Step>, t: Pool)
    requires Run(s, es, t)
    ensures s.started <= t.started && s.done <= t.done && s.cancelled <= t.cancelled
    ensures s.submitted <= t.submitted && |s.workers| <= |t.workers|
    ensures Cancel !in es ==> t.cancelled == s.cancelled
    decreases |es|
  {
    if es != [] {
      HistoryGrows(Next(s, es[0]), es[1..], t);
    }
  }

  /** A task in the queue when cancel_pending clears it is never started afterwards. */
  lemma CancelledNeverStarts(s: Pool, es: seq<Step>, t: Pool, id: nat)
    requires Reachable(s) && id in TaskIds(s.work)
    requires Run(Next(s, Cancel), es, t)
    ensures id !in t.started && id in t.cancelled
  {
    var c := Next(s, Cancel);
    HistoryGrows(c, es, t);
    assert id in c.cancelled;
    var i :| 0 <= i < |c.cancelled| && c.cancelled[i] == id;
    assert t.cancelled[i] == id;
    ReachableInv(s);
    assert Run(s, [Cancel] + es, t);
    InvRun(s, [Cancel] + es, t);
    assert Placed(t, id);
  }

  // ----- Draining before exit

  /** No task below k is queued behind a stop item, nor queued at all once a worker has exited. */
  predicate EarlyFirst(s: Pool, k: nat) {
    && (forall i, j :: 0 <= i < j < |s.work| && s.work[i].Stop? && s.work[j].Task? ==> s.work[j].id >= k)
    && ((exists w :: 0 <= w < |s.workers| && s.workers[w].Exited?) ==>
          forall j :: 0 <= j < |s.work| && s.work[j].Task? ==> s.work[j].id >= k)
  }

  lemma EarlyFirstStep(s: Pool, e: Step, k: nat)
    requires EarlyFirst(s, k) && k <= s.submitted && Enabled(s, e)
    ensures EarlyFirst(Next(s, e), k)
  {
    var t := Next(s, e);
    if e.Acquire? && s.work != [] {
      assert forall j :: 0 <= j < |t.work| ==> t.work[j] == s.work[j + 1];
      if s.work[0].Task? && exists w :: 0 <= w < |t.workers| && t.workers[w].Exited? {
        var w :| 0 <= w < |t.workers| && t.workers[w].Exited?;
        assert s.workers[w].Exited?;
      }
    } else {
      if exists w :: 0 <= w < |t.workers| && t.workers[w].Exited? {
        var w :| 0 <= w < |t.workers| && t.workers[w].Exited?;
        assert s.workers[w].Exited?;
      }
    }
  }

  lemma {:induction false} EarlyFirstRun(s: Pool, es: seq<Step>, t: Pool, k: nat)
    requires EarlyFirst(s, k) && k <= s.submitted && Run(s, es, t)
    ensures EarlyFirst(t, k)
    decreases |es|
  {
    if es != [] {
      EarlyFirstStep(s, es[0], k);
      EarlyFirstRun(Next(s, es[0]), es[1..], t, k);
    }
  }

  /** Before the first finish there is no stop item and no worker has exited. */
  lemma {:induction false} BeforeFinish(s: Pool, es: seq<Step>, t: Pool)
    requires Run(s, es, t) && PushStops !in es
    requires Stop !in s.work && Exited !in s.workers
    ensures Stop !in t.work && Exited !in t.workers
    decreases |es|
  {
    if es != [] {
      BeforeFinish(Next(s, es[0]), es[1..], t);
    }
  }

  /**
   From any reachable state with no stop item queued and no worker gone, whatever happens
   next: once every worker has exited, and there is at least one, each task submitted up to
   that state has run to completion or was cancelled.
   */
  lemma DrainedWhenAllExited(s: Pool, es: seq<Step>, t: Pool, id: nat)
    requires Reachable(s) && Stop !in s.work && Exited !in s.workers
    requires Run(s, es, t) && |t.workers| > 0 && AllExited(t.workers)
    requires id < s.submitted
    ensures id in t.done || id in t.cancelled
  {
    EarlyFirstRun(s, es, t, s.submitted);
    assert Exited == t.workers[0];
    EarlyNotQueued(t, s.submitted, id);
    ReachableInv(s);
    InvRun(s, es, t);
    HistoryGrows(s, es, t);
    FinishedOrCancelled(t, id);
  }

  /** In particular every task queued before the first finish, and all of them if nothing is cancelled. */
  lemma DrainBeforeExit(before: seq<Step>, s: Pool, after: seq<Step>, t: Pool, id: nat)
    requires Run(INIT, before, s) && PushStops !in before
    requires Run(s, after, t) && |t.workers| > 0 && AllExited(t.workers)
    requires id < s.submitted
    ensures id in t.done || id in t.cancelled
    ensures Cancel !in before && Cancel !in after ==> id in t.done
  {
    BeforeFinish(INIT, before, s);
    DrainedWhenAllExited(s, after, t, id);
    HistoryGrows(INIT, before, s);
    HistoryGrows(s, after, t);
  }

  lemma EarlyNotQueued(t: Pool, k: nat, id: nat)
    requires EarlyFirst(t, k) && id < k
    requires exists w :: 0 <= w < |t.workers| && t.workers[w].Exited?
    ensures id !in TaskIds(t.work)
  {
    TaskIdsMember(t.work, id);
  }

  /** With no worker inside a task body, a submission not queued any more is done or cancelled. */
  lemma FinishedOrCancelled(t: Pool, id: nat)
    requires Accounted(t) && id < t.submitted && id !in TaskIds(t.work)
    requires forall i :: 0 <= i < |t.workers| ==> !t.workers[i].Running?
    ensures id in t.done || id in t.cancelled
  {
    assert Placed(t, id);
    NobodyRunning(t.workers, id);
  }

  // ----- Late tasks

  /** The stop items ahead of the first task numbered k or more. */
  function StopsAhead(work: seq<Item>, k: nat): nat {
    if work == [] then 0
    else if work[0].Stop? then 1 + StopsAhead(work[1..], k)
    else if work[0].id >= k then 0
    else StopsAhead(work[1..], k)
  }

  lemma {:induction false} StopsAheadAppend(a: seq<Item>, b: seq<Item>, k: nat)
    ensures StopsAhead(a + b, k) >= StopsAhead(a, k)
  {
    if a != [] {
      assert (a + b)[1..] == a[1..] + b;
      StopsAheadAppend(a[1..], b, k);
    }
  }

  lemma {:induction false} StopsAheadAll(work: seq<Item>, k: nat)
    requires forall i :: 0 <= i < |work| && work[i].Task? ==> work[i].id < k
    ensures StopsAhead(work, k) == StopCount(work)
  {
    if work != [] {
      StopsAheadAll(work[1..], k);
    }
  }

  lemma LiveMember(ws: seq<Phase>, w: nat)
    requires w < |ws| && !ws[w].Exited?
    ensures Sum(ws, IsLive) > 0
  {
    SumZero(ws, IsLive);
    assert IsLive(ws[w]) == 1;
  }

  /** Without a start or a cancel, stop items ahead of task k keep outnumbering live workers. */
  lemma LateStep(s: Pool, e: Step, k: nat)
    requires Enabled(s, e) && !e.Spawn? && !e.Cancel?
    requires StopsAhead(s.work, k) >= Live(s)
    requires forall id :: id in s.started ==> id < k
    ensures StopsAhead(Next(s, e).work, k) >= Live(Next(s, e))
    ensures forall id :: id in Next(s, e).started ==> id < k
  {
    var t := Next(s, e);
    match e
    case Push => StopsAheadAppend(s.work, [Task(s.submitted)], k);
    case PushStops => StopsAheadAppend(s.work, Stops(|s.workers|), k);
    case NotifyOne(w) => SumUpdate(s.workers, w, Woken, IsLive);
    case NotifyNone =>
    case NotifyAll => SumAtMost(t.workers, s.workers, IsLive, IsLive);
    case Spurious(w) => SumUpdate(s.workers, w, Woken, IsLive);
    case Acquire(w) =>
      LiveMember(s.workers, w);
      SumUpdate(s.workers, w, t.workers[w], IsLive);
    case Complete(w) => SumUpdate(s.workers, w, Ready, IsLive);
  }

  lemma {:induction false} LateRun(s: Pool, es: seq<Step>, t: Pool, k: nat)
    requires Run(s, es, t) && Cancel !in es && Spawn !in es
    requires StopsAhead(s.work, k) >= Live(s)
    requires forall id :: id in s.started ==> id < k
    ensures forall id :: id in t.started ==> id < k
    decreases |es|
  {
    if es != [] {
      assert es[0] in es;
      LateStep(s, es[0], k);
      LateRun(Next(s, es[0]), es[1..], t, k);
    }
  }

  /**
   With at least as many stop items queued as there are live workers (which is how every
   finish leaves the pool, see StopsCoverAfterFinish), a task queued from now on never
   starts, as long as no worker is started and nothing is cancelled.
   */
  lemma LateTaskNeverStarts(s: Pool, es: seq<Step>, t: Pool, id: nat)
    requires Reachable(s) && StopCount(s.work) >= Live(s)
    requires Run(s, es, t) && Cancel !in es && Spawn !in es
    requires id >= s.submitted
    ensures id !in t.started
  {
    ReachableInv(s);
    forall i | 0 <= i < |s.work| && s.work[i].Task?
      ensures s.work[i].id < s.submitted
    {
      TaskIdsMember(s.work, s.work[i].id);
      assert Task(s.work[i].id) in s.work;
      QueuedBelow(s, s.work[i].id);
    }
    forall k | k in s.started
      ensures k < s.submitted
    {
      QueuedBelow(s, k);
    }
    StopsAheadAll(s.work, s.submitted);
    LateRun(s, es, t, s.submitted);
  }

  /** finish leaves at least one stop item per live worker, whatever the queue held before. */
  lemma StopsCoverAfterFinish(s: Pool)
    ensures StopCount(Next(s, PushStops).work) >= Live(Next(s, PushStops))
  {
    StopCountConcat(s.work, Stops(|s.workers|));
    StopsOnly(|s.workers|);
    LiveAtMostAll(s.workers);
  }

  lemma {:induction false} LiveAtMostAll(ws: seq<Phase>)
    ensures Sum(ws, IsLive) <= |ws|
  {
    if ws != [] {
      LiveAtMostAll(ws[1..]);
    }
  }
}
