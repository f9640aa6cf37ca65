/**
 The thread pool `tasks` as a transition system.

 One step is one critical section, one delivered notification, one spurious wake-up, or one
 task body.  What a worker does alone between two such points is merged into the step before
 it: popping a stop item and returning is one step.  Both ways a worker can hold the lock with
 the queue in front of it (first arrival, and re-acquiring it inside `wait`) test the same
 predicate and then sleep or pop, so they share the step `Acquire`.
 */
module ThreadPool {

  /** A queue entry: a packaged task, named by its submission number, or an empty one. */
  datatype Item = Task(id: nat) | Stop

  datatype Phase =
    | Ready            // about to lock the mutex
    | Asleep           // blocked in the condition variable, not notified
    | Woken            // notified (or woken spuriously), about to re-lock the mutex
    | Running(id: nat) // outside the lock, inside the task body
    | Exited           // thread_task has returned

  /**
   `workers` stands for the futures in `finished_`: one entry a started thread, never removed.
   `ones` and `alls` count the calls of notify_one and notify_all whose caller has left its
   critical section but has not notified yet.  The last four fields record the history.
   */
  datatype Pool = Pool(
    work: seq<Item>,
    workers: seq<Phase>,
    ones: nat,
    alls: nat,
    submitted: nat,
    started: seq<nat>,
    done: seq<nat>,
    cancelled: seq<nat>)

  const INIT := Pool([], [], 0, 0, 0, [], [], [])

  datatype Step =
    | Push                // queue: the critical section
    | PushStops           // finish: the critical section
    | Cancel              // cancel_pending
    | Spawn               // start: one iteration
    | NotifyOne(w: nat)   // a notify_one that finds w asleep
    | NotifyNone          // a notify_one that finds nobody asleep
    | NotifyAll
    | Spurious(w: nat)    // the condition variable wakes w for no reason
    | Acquire(w: nat)     // w holds the lock: sleep again, or pop the front item
    | Complete(w: nat)    // the task body of w returns
  {
    /** A call made from outside, as opposed to something the pool does on its own. */
    predicate External() { Push? || PushStops? || Cancel? || Spawn? }

    /** A step that the scheduler must eventually grant when nothing else happens. */
    predicate Progress() { !External() && !Spurious? }
  }

  function Stops(n: nat): (r: seq<Item>) {
    seq(n, _ => Stop)
  }

  /** The submission numbers in a queue, front first. */
  function TaskIds(work: seq<Item>): seq<nat> {
    if work == [] then []
    else if work[0].Task? then [work[0].id] + TaskIds(work[1..])
    else TaskIds(work[1..])
  }

  function WakeAll(workers: seq<Phase>): (r: seq<Phase>)
    ensures |r| == |workers|
    ensures forall i :: 0 <= i < |r| ==> r[i] == if workers[i].Asleep? then Woken else workers[i]
  {
    seq(|workers|, i requires 0 <= i < |workers| => if workers[i].Asleep? then Woken else workers[i])
  }

  predicate NobodyAsleep(workers: seq<Phase>) {
    forall i :: 0 <= i < |workers| ==> !workers[i].Asleep?
  }

  predicate AllExited(workers: seq<Phase>) {
    forall i :: 0 <= i < |workers| ==> workers[i].Exited?
  }

  predicate Enabled(s: Pool, e: Step) {
    match e
    case Push => true
    case PushStops => true
    case Cancel => true
    case Spawn => true
    case NotifyOne(w) => s.ones > 0 && w < |s.workers| && s.workers[w].Asleep?
    case NotifyNone => s.ones > 0 && NobodyAsleep(s.workers)
    case NotifyAll => s.alls > 0
    case Spurious(w) => w < |s.workers| && s.workers[w].Asleep?
    case Acquire(w) => w < |s.workers| && (s.workers[w].Ready? || s.workers[w].Woken?)
    case Complete(w) => w < |s.workers| && s.workers[w].Running?
  }

  /** The critical section of thread_task for worker w. */
  function Take(s: Pool, w: nat): Pool
    requires w < |s.workers|
  {
    if s.work == [] then
      s.(workers := s.workers[w := Asleep])
    else if s.work[0].Stop? then
      s.(work := s.work[1..], workers := s.workers[w := Exited])
    else
      s.(work := s.work[1..], workers := s.workers[w := Running(s.work[0].id)],
      started := s.started + [s.work[0].id])
  }

  function Next(s: Pool, e: Step): Pool
    requires Enabled(s, e)
  {
    match e
    case Push =>
      s.(work := s.work + [Task(s.submitted)], ones := s.ones + 1, submitted := s.submitted + 1)
    case PushStops => s.(work := s.work + Stops(|s.workers|), alls := s.alls + 1)
    case Cancel => s.(work := [], cancelled := s.cancelled + TaskIds(s.work))
    case Spawn => s.(workers := s.workers + [Ready])
    case NotifyOne(w) => s.(ones := s.ones - 1, workers := s.workers[w := Woken])
    case NotifyNone => s.(ones := s.ones - 1)
    case NotifyAll => s.(alls := s.alls - 1, workers := WakeAll(s.workers))
    case Spurious(w) => s.(workers := s.workers[w := Woken])
    case Acquire(w) => Take(s, w)
    case Complete(w) =>
      s.(workers := s.workers[w := Ready], done := s.done + [s.workers[w].id])
  }

  /** es is a schedule that leads from s to t. */
  ghost predicate Run(s: Pool, es: seq<Step>, t: Pool)
    decreases |es|
  {
    if es == [] then s == t
    else Enabled(s, es[0]) && Run(Next(s, es[0]), es[1..], t)
  }

  ghost predicate Reachable(s: Pool) {
    exists es :: Run(INIT, es, s)
  }

  lemma {:induction false} RunConcat(s: Pool, es: seq<Step>, t: Pool, fs: seq<Step>, u: Pool)
    requires Run(s, es, t) && Run(t, fs, u)
    ensures Run(s, es + fs, u)
    decreases |es|
  {
    if es == [] {
      assert es + fs == fs;
    } else {
      RunConcat(Next(s, es[0]), es[1..], t, fs, u);
      assert (es + fs)[1..] == es[1..] + fs;
    }
  }

  lemma Extend(s: Pool, es: seq<Step>, t: Pool, e: Step)
    requires Run(s, es, t) && Enabled(t, e)
    ensures Run(s, es + [e], Next(t, e))
  {
    assert [e][1..] == [];
    RunConcat(s, es, t, [e], Next(t, e));
  }

  lemma ReachableNext(s: Pool, e: Step)
    requires Reachable(s) && Enabled(s, e)
    ensures Reachable(Next(s, e))
  {
    var es :| Run(INIT, es, s);
    Extend(INIT, es, s, e);
  }

  lemma InitReachable()
    ensures Reachable(INIT)
  {
    assert Run(INIT, [], INIT);
  }

  /** Any sleeper may wake for no reason; it looks at the empty queue and sleeps again, and nothing has changed. */
  lemma SpuriousWakeupIsHarmless(s: Pool, w: nat)
    requires w < |s.workers| && s.workers[w] == Asleep && s.work == []
    ensures Run(s, [Spurious(w), Acquire(w)], s)
  {
    var mid := Next(s, Spurious(w));
    assert mid.workers[w := Asleep] == s.workers;
    assert [Spurious(w), Acquire(w)][1..] == [Acquire(w)];
    assert [Acquire(w)][1..] == [];
    assert Next(mid, Acquire(w)) == s;
  }

  // ----- Sums over workers and counts over the queue

  function Sum(ws: seq<Phase>, f: Phase -> nat): nat {
    if ws == [] then 0 else f(ws[0]) + Sum(ws[1..], f)
  }

  lemma {:induction false} SumUpdate(ws: seq<Phase>, w: nat, p: Phase, f: Phase -> nat)
    requires w < |ws|
    ensures Sum(ws[w := p], f) == Sum(ws, f) - f(ws[w]) + f(p)
  {
    if w == 0 {
      assert ws[w := p][1..] == ws[1..];
    } else {
      assert ws[w := p][1..] == ws[1..][w - 1 := p];
      SumUpdate(ws[1..], w - 1, p, f);
    }
  }

  lemma {:induction false} SumAppend(ws: seq<Phase>, p: Phase, f: Phase -> nat)
    ensures Sum(ws + [p], f) == Sum(ws, f) + f(p)
  {
    if ws == [] {
      assert ws + [p] == [p];
    } else {
      assert (ws + [p])[1..] == ws[1..] + [p];
      SumAppend(ws[1..], p, f);
    }
  }

  /** If f is at most g pointwise, so is its sum. */
  lemma {:induction false} SumAtMost(ws: seq<Phase>, vs: seq<Phase>, f: Phase -> nat, g: Phase -> nat)
    requires |ws| == |vs|
    requires forall i :: 0 <= i < |ws| ==> f(ws[i]) <= g(vs[i])
    ensures Sum(ws, f) <= Sum(vs, g)
  {
    if ws != [] {
      SumAtMost(ws[1..], vs[1..], f, g);
    }
  }

  /** A sum is zero exactly when every term is. */
  lemma {:induction false} SumZero(ws: seq<Phase>, f: Phase -> nat)
    ensures Sum(ws, f) == 0 <==> forall i :: 0 <= i < |ws| ==> f(ws[i]) == 0
  {
    if ws != [] {
      SumZero(ws[1..], f);
      assert (forall i :: 0 <= i < |ws| ==> f(ws[i]) == 0) ==>
          forall i :: 0 <= i < |ws[1..]| ==> f(ws[1..][i]) == 0;
    }
  }

  /** 1 for a worker whose thread_task has not returned. */
  function IsLive(p: Phase): nat { if p.Exited? then 0 else 1 }

  /** 1 for a live worker that will look at the queue without being notified. */
  function IsAwake(p: Phase): nat { if p.Exited? || p.Asleep? then 0 else 1 }

  function IsAsleep(p: Phase): nat { if p.Asleep? then 1 else 0 }

  function Live(s: Pool): nat { Sum(s.workers, IsLive) }

  function Awake(s: Pool): nat { Sum(s.workers, IsAwake) }

  function Sleepers(s: Pool): nat { Sum(s.workers, IsAsleep) }

  /** The number of stop items in a queue. */
  function StopCount(work: seq<Item>): nat {
    if work == [] then 0 else (if work[0].Stop? then 1 else 0) + StopCount(work[1..])
  }

  lemma {:induction false} StopCountConcat(a: seq<Item>, b: seq<Item>)
    ensures StopCount(a + b) == StopCount(a) + StopCount(b)
  {
    if a == [] {
      assert a + b == b;
    } else {
      assert (a + b)[1..] == a[1..] + b;
      StopCountConcat(a[1..], b);
    }
  }

  lemma {:induction false} StopsOnly(n: nat)
    ensures StopCount(Stops(n)) == n && TaskIds(Stops(n)) == []
  {
    if n > 0 {
      assert Stops(n)[1..] == Stops(n - 1);
      StopsOnly(n - 1);
    }
  }

  lemma {:induction false} TaskIdsConcat(a: seq<Item>, b: seq<Item>)
    ensures TaskIds(a + b) == TaskIds(a) + TaskIds(b)
  {
    if a == [] {
      assert a + b == b;
    } else {
      assert (a + b)[1..] == a[1..] + b;
      TaskIdsConcat(a[1..], b);
    }
  }

  lemma {:induction false} TaskIdsMember(work: seq<Item>, id: nat)
    ensures id in TaskIds(work) <==> Task(id) in work
  {
    if work != [] {
      TaskIdsMember(work[1..], id);
      assert work == [work[0]] + work[1..];
    }
  }
}
