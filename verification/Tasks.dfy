/**
 The class `tasks` itself: its fields, and each method as the steps of the pool it performs
 when its caller is not interrupted.  Interleaved callers are the subject of ThreadPool.
 */
module Tasks {
  import opened ThreadPool

  /** The queue without what precedes, and includes, its first stop item. */
  function AfterStop(work: seq<Item>): seq<Item> {
    if work == [] then [] else if work[0].Stop? then work[1..] else AfterStop(work[1..])
  }

  /** The tasks ahead of the first stop item. */
  function BeforeStop(work: seq<Item>): seq<nat> {
    if work == [] || work[0].Stop? then [] else [work[0].id] + BeforeStop(work[1..])
  }

  /** The two parts hold all tasks of the queue, in order. */
  lemma {:induction false} SplitAtStop(work: seq<Item>)
    ensures TaskIds(work) == BeforeStop(work) + TaskIds(AfterStop(work))
  {
    if work != [] && work[0].Task? {
      var id, rest := work[0].id, work[1..];
      SplitAtStop(rest);
      assert [id] + (BeforeStop(rest) + TaskIds(AfterStop(rest)))
          == ([id] + BeforeStop(rest)) + TaskIds(AfterStop(rest));
    }
  }

  /** The cut is at the first stop item, or behind the last task. */
  lemma {:induction false} SplitExactly(work: seq<Item>, k: nat)
    requires k <= |work| && Stop !in work[..k] && (k < |work| ==> work[k] == Stop)
    ensures BeforeStop(work) == TaskIds(work[..k])
    ensures AfterStop(work) == if k < |work| then work[k + 1..] else []
  {
    if k > 0 {
      assert work[..k][0] == work[0] && work[..k][1..] == work[1..][..k - 1];
      SplitExactly(work[1..], k - 1);
    }
  }

  /** One stop item is gone, or there was none and nothing is left. */
  lemma {:induction false} StopTaken(work: seq<Item>)
    ensures StopCount(work) == StopCount(AfterStop(work)) + (if Stop in work then 1 else 0)
    ensures Stop !in work ==> AfterStop(work) == []
  {
    if work != [] {
      assert work == [work[0]] + work[1..];
      if work[0].Task? {
        StopTaken(work[1..]);
      }
    }
  }

  /** A single sleeper has been woken, if there was any. */
  predicate OneWoken(before: seq<Phase>, after: seq<Phase>) {
    if NobodyAsleep(before) then after == before
    else exists w :: 0 <= w < |before| && before[w].Asleep? && after == before[w := Woken]
  }

  class TaskPool {
    var work: seq<Item>      // work_
    var workers: seq<Phase>  // one entry a future in finished_
    var ones: nat
    var alls: nat
    var submitted: nat       // names the packaged tasks
    ghost var started: seq<nat>
    ghost var done: seq<nat>
    ghost var cancelled: seq<nat>

    ghost function State(): Pool
      reads this
    {
      Pool(work, workers, ones, alls, submitted, started, done, cancelled)
    }

    constructor ()
      ensures State() == INIT
    {
      work, workers, ones, alls := [], [], 0, 0;
      submitted, started, done, cancelled := 0, [], [], [];
    }

    /** notify_one: wakes some sleeping worker, if there is one. */
    method NotifyOne() returns (ghost e: Step)
      requires ones > 0
      modifies this
      ensures e == NotifyNone || exists w :: e == ThreadPool.Step.NotifyOne(w)
      ensures Run(old(State()), [e], State())
      ensures OneWoken(old(workers), workers)
    {
      ones := ones - 1;
      if w: nat :| w < |workers| && workers[w].Asleep? {
        e := ThreadPool.Step.NotifyOne(w);
        workers := workers[w := Woken];
      } else {
        e := NotifyNone;
      }
    }

    /** notify_all: wakes every sleeping worker. */
    method NotifyEveryone()
      requires alls > 0
      modifies this
      ensures Run(old(State()), [NotifyAll], State())
      ensures workers == WakeAll(old(workers)) && work == old(work)
    {
      alls := alls - 1;
      workers := WakeAll(workers);
    }

    /** queue: appends the task under the lock, then notifies one worker. */
    method Queue() returns (id: nat, ghost e: Step)
      modifies this
      ensures id == old(submitted) && work == old(work) + [Task(id)]
      ensures e == NotifyNone || exists w :: e == ThreadPool.Step.NotifyOne(w)
      ensures Run(old(State()), [Push, e], State())
      ensures OneWoken(old(workers), workers)
    {
      ghost var before := State();
      id := submitted;
      work := work + [Task(submitted)];
      ones := ones + 1;
      submitted := submitted + 1;
      assert State() == Next(before, Push);
      e := NotifyOne();
      assert [Push, e][1..] == [e];
    }

    /** start: one asynchronous call, and one future, an iteration. */
    method Start(n: nat)
      modifies this
      ensures State() == old(State()).(workers := old(workers) + seq(n, _ => Ready))
      ensures Run(old(State()), seq(n, _ => Spawn), State())
    {
      ghost var before := State();
      for i := 0 to n
        invariant State() == before.(workers := before.workers + seq(i, _ => Ready))
        invariant Run(before, seq(i, _ => Spawn), State())
      {
        ghost var mid := State();
        workers := workers + [Ready];
        assert State() == Next(mid, Spawn);
        assert [Spawn][1..] == [];
        assert Run(mid, [Spawn], State());
        RunConcat(before, seq(i, _ => Spawn), mid, [Spawn], State());
        assert seq(i + 1, _ => Spawn) == seq(i, _ => Spawn) + [Spawn];
        assert seq(i + 1, _ => Ready) == seq(i, _ => Ready) + [Ready];
      }
    }

    method CancelPending()
      modifies this
      ensures work == [] && workers == old(workers)
      ensures State() == Next(old(State()), Cancel)
    {
      cancelled := cancelled + TaskIds(work);
      work := [];
    }

    /** finish: a stop item for every future, under one lock, then notify_all. */
    method Finish()
      modifies this
      ensures work == old(work) + Stops(|old(workers)|) && workers == WakeAll(old(workers))
      ensures Run(old(State()), [PushStops, NotifyAll], State())
    {
      ghost var before := State();
      for i := 0 to |workers|
        invariant State() == before.(work := before.work + Stops(i))
      {
        work := work + [Stop];
        assert Stops(i + 1) == Stops(i) + [Stop];
      }
      alls := alls + 1;
      assert State() == Next(before, PushStops);
      NotifyEveryone();
      assert [PushStops, NotifyAll][1..] == [NotifyAll];
    }

    method Abort()
      modifies this
      ensures work == Stops(|old(workers)|) && workers == WakeAll(old(workers))
      ensures Run(old(State()), [Cancel, PushStops, NotifyAll], State())
    {
      ghost var before := State();
      CancelPending();
      Finish();
      assert [] + Stops(|old(workers)|) == Stops(|old(workers)|);
      assert [Cancel, PushStops, NotifyAll][1..] == [PushStops, NotifyAll];
    }

    /** The critical section of thread_task: sleep on an empty queue, otherwise pop. */
    method PopOrSleep(w: nat)
      requires w < |workers| && (workers[w].Ready? || workers[w].Woken?)
      modifies this
      ensures State() == Next(old(State()), Acquire(w))
    {
      if work == [] {
        workers := workers[w := Asleep];
      } else {
        var f := work[0];
        work := work[1..];
        if f.Stop? {
          workers := workers[w := Exited];
        } else {
          started := started + [f.id];
          workers := workers[w := Running(f.id)];
        }
      }
    }

    /** The task body and the way back to the head of the loop. */
    method RunTask(w: nat)
      requires w < |workers| && workers[w].Running?
      modifies this
      ensures State() == Next(old(State()), Complete(w))
    {
      done := done + [workers[w].id];
      workers := workers[w := Ready];
    }

    /** One turn of the loop of thread_task. */
    method Turn(w: nat) returns (ghost es: seq<Step>)
      requires w < |workers| && (workers[w].Ready? || workers[w].Woken?)
      modifies this
      ensures Run(old(State()), es, State()) && forall e :: e in es ==> e == Acquire(w) || e == Complete(w)
      ensures if old(work) == [] then
                work == [] && done == old(done) && workers == old(workers)[w := Asleep]
              else if old(work)[0].Stop? then
                work == old(work)[1..] && done == old(done) && workers == old(workers)[w := Exited]
              else
                work == old(work)[1..] && done == old(done) + [old(work)[0].id]
                && workers == old(workers)[w := Ready]
    {
      ghost var before := State();
      PopOrSleep(w);
      assert Run(before, [], before);
      Extend(before, [], before, Acquire(w));
      es := [] + [Acquire(w)];
      if workers[w].Running? {
        ghost var mid := State();
        RunTask(w);
        Extend(before, es, mid, Complete(w));
        es := es + [Complete(w)];
      }
    }

    /**
     thread_task, for as long as nobody else runs: the worker executes, in order, everything
     ahead of the first stop item; it consumes that item and exits, or finds the queue empty
     and sleeps.
     */
    method ThreadTask(w: nat) returns (ghost es: seq<Step>)
      requires w < |workers| && (workers[w].Ready? || workers[w].Woken?)
      modifies this
      ensures done == old(done) + BeforeStop(old(work))
      ensures work == AfterStop(old(work))
      ensures workers == old(workers)[w := if Stop in old(work) then Exited else Asleep]
      ensures Run(old(State()), es, State())
      ensures forall e :: e in es ==> e == Acquire(w) || e == Complete(w)
    {
      ghost var before := State();
      es := [];
      while workers[w].Ready? || workers[w].Woken?
        invariant |workers| == |before.workers|
        invariant workers == before.workers[w := workers[w]]
        invariant if workers[w].Ready? || workers[w].Woken? then Halfway(before, State())
                  else done == before.done + BeforeStop(before.work) && work == AfterStop(before.work)
                       && workers[w] == if Stop in before.work then Exited else Asleep
        invariant Run(before, es, State())
        invariant forall e :: e in es ==> e == Acquire(w) || e == Complete(w)
        decreases |work|, !workers[w].Asleep? && !workers[w].Exited?
      {
        ghost var mid := State();
        TurnTaken(before, mid);
        ghost var fs := Turn(w);
        RunConcat(before, es, mid, fs, State());
        es := es + fs;
      }
    }
  }

  /** Between two turns of the loop: what is done and what is left add up to the first queue. */
  ghost predicate Halfway(s: Pool, t: Pool) {
    && t.done + BeforeStop(t.work) == s.done + BeforeStop(s.work)
    && AfterStop(t.work) == AfterStop(s.work)
    && (Stop in t.work <==> Stop in s.work)
  }

  lemma TurnTaken(s: Pool, t: Pool)
    requires Halfway(s, t)
    ensures t.work == [] ==>
              t.done == s.done + BeforeStop(s.work) && AfterStop(s.work) == [] && Stop !in s.work
    ensures t.work != [] && t.work[0].Stop? ==>
              t.done == s.done + BeforeStop(s.work) && AfterStop(s.work) == t.work[1..] && Stop in s.work
    ensures t.work != [] && t.work[0].Task? ==>
              Halfway(s, t.(done := t.done + [t.work[0].id], work := t.work[1..]))
  {
    if t.work != [] {
      assert t.work == [t.work[0]] + t.work[1..];
      if t.work[0].Task? {
        assert t.done + [t.work[0].id] + BeforeStop(t.work[1..]) == t.done + BeforeStop(t.work);
      }
    }
  }
}
