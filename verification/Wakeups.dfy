/** The wake-ups of waiting workers (tickle in iomanager.cpp, called from scheduler.h and scheduler.cpp): a
    byte in a pipe ends the wait of a worker. Each method is a step; any interleaving of steps is a run. */
module Wakeups {
  import opened Prelude
  import opened Fibers
  import opened Schedulers

  class Alarm {
    const sched: Scheduler
    /** The bytes in the pipe, and the calls of tickle that have been decided and not made yet. */
    var pipe: nat
    var owed: nat
    /** Workers that have scanned in vain and are not counted as idle yet, and those that are back from
        epoll_wait and have not left the idle loop yet. */
    var missed: set<nat>
    var back: set<nat>

    /** The worker looks at the queue before it waits again. */
    predicate Up(w: nat)
      requires w < |sched.workers|
      reads this`missed, this`back, sched`workers
    {
      match sched.workers[w].phase
      case Scanning => w !in missed
      case Picked(_) => true
      case Running(_, _) => true
      case Idling => w in back
      case Exited => false
    }

    predicate Asleep()
      reads this`missed, this`back, sched`workers
    {
      forall w :: 0 <= w < |sched.workers| ==> !Up(w)
    }

    /** Some worker that is still in its loop may run a task for this thread. */
    predicate For(thread: int)
      reads sched`workers
    {
      exists w :: 0 <= w < |sched.workers| && !sched.workers[w].phase.Exited? && thread in {-1, sched.workers[w].thread}
    }

    predicate Wanted()
      reads sched`workers, sched`fibers
    {
      exists j :: 0 <= j < |sched.fibers| && For(sched.fibers[j].thread)
    }

    /** Nobody will look at the queue and nobody will be told to. */
    predicate Quiet()
      reads this, sched`workers
    {
      owed == 0 && pipe == 0 && Asleep()
    }

    /** A task waits for workers that wait for their timeout. */
    predicate Stuck()
      reads this, sched`workers, sched`fibers
    {
      Quiet() && Wanted()
    }

    ghost predicate Placed()
      reads this`missed, this`back, sched`workers
    {
      && (forall w :: w in missed ==> w < |sched.workers| && sched.workers[w].phase.Scanning?)
      && (forall w :: w in back ==> w < |sched.workers| && sched.workers[w].phase.Idling?)
    }

    ghost predicate Valid()
      reads this, sched, sched.all, sched.idlers
    {
      sched.Valid() && Placed()
    }

    constructor (sched: Scheduler)
      requires sched.Valid() && sched.workers != []
      requires forall w :: 0 <= w < |sched.workers| ==> sched.workers[w].phase.Scanning?
      ensures Valid() && this.sched == sched && !Stuck() && missed == back == {} && pipe == owed == 0
    {
      hide Scheduler.Valid;
      this.sched, pipe, owed, missed, back := sched, 0, 0, {}, {};
      new;
      assert Up(0);
    }

    /** Being stuck in the scheduler's terms: a worker in its loop may run a queued task, all workers have
        scanned before it came or wait, none works, and no byte and no call is on its way. */
    lemma StuckIff()
      requires Valid()
      ensures Stuck() <==>
                && owed == 0 && pipe == 0 && sched.active == 0
                && (forall w :: 0 <= w < |sched.workers| && sched.workers[w].phase.Scanning? ==> w in missed)
                && (forall w :: 0 <= w < |sched.workers| && sched.workers[w].phase.Idling? ==> w !in back)
                && exists j, w :: 0 <= j < |sched.fibers| && 0 <= w < |sched.workers|
                                  && !sched.workers[w].phase.Exited?
                                  && sched.Runnable(sched.fibers[j], sched.workers[w].thread)
    {
      hide Scheduler.Valid, Up;
      sched.DrainedWhenStopping();
      forall w | 0 <= w < |sched.workers|
        ensures !Up(w) <==>
                && !sched.workers[w].phase.Picked? && !sched.workers[w].phase.Running?
                && (sched.workers[w].phase.Scanning? ==> w in missed)
                && (sched.workers[w].phase.Idling? ==> w !in back)
      {
        UpMeans(w);
      }
      if sched.active == 0 {
        NobodyRuns();
      }
    }

    lemma UpMeans(w: nat)
      requires w < |sched.workers|
      ensures !Up(w) <==>
              && !sched.workers[w].phase.Picked? && !sched.workers[w].phase.Running?
              && (sched.workers[w].phase.Scanning? ==> w in missed)
              && (sched.workers[w].phase.Idling? ==> w !in back)
    {
    }

    lemma NobodyRuns()
      requires Valid() && sched.active == 0
      ensures Wanted() <==>
              exists j, w :: 0 <= j < |sched.fibers| && 0 <= w < |sched.workers|
                             && !sched.workers[w].phase.Exited?
                             && sched.Runnable(sched.fibers[j], sched.workers[w].thread)
    {
      hide Scheduler.Valid;
      sched.DrainedWhenStopping();
      forall j | 0 <= j < |sched.fibers| && sched.fibers[j].fiber != null
        ensures sched.fibers[j].fiber.state != EXEC
      {
        sched.NobodyExecutes(j);
      }
      if Wanted() {
        var j :| 0 <= j < |sched.fibers| && For(sched.fibers[j].thread);
        var w :| 0 <= w < |sched.workers| && !sched.workers[w].phase.Exited?
                 && sched.fibers[j].thread in {-1, sched.workers[w].thread};
        assert sched.Runnable(sched.fibers[j], sched.workers[w].thread);
      }
    }

    // ----- queueing -----

    /** schedule(fiber, thread). Only an empty queue makes it call tickle; so it strands its task exactly if
        all workers sleep over a queue that holds nothing for any of them. */
    method Post(f: Fiber, thread: int)
      requires Valid() && f in sched.all && sched.MayWake(f)
      modifies this`owed, sched`fibers, sched`issued
      ensures Valid() && sched.fibers == old(sched.fibers) + [Task(f, None, thread)]
      ensures owed == old(owed) + if old(sched.fibers) == [] then 1 else 0
      ensures Stuck() <==> old(Stuck()) || (old(Quiet() && sched.fibers != [] && !Wanted()) && For(thread))
    {
      hide Scheduler.Valid, Scheduler.MayWake, Up, For;
      var need := sched.Schedule(f, thread);
      owed := owed + if need then 1 else 0;
      OneMore(Task(f, None, thread));
    }

    /** schedule(cb, thread). */
    method PostCallback(cb: Option<Callback>, thread: int)
      requires Valid()
      modifies this`owed, sched`fibers, sched`issued
      ensures Valid() && sched.fibers == old(sched.fibers) + if cb.Some? then [Task(null, cb, thread)] else []
      ensures owed == old(owed) + if old(sched.fibers) == [] then 1 else 0
      ensures Stuck() <==>
              old(Stuck()) || (old(Quiet() && sched.fibers != [] && !Wanted()) && cb.Some? && For(thread))
    {
      hide Scheduler.Valid, Up, For;
      var need := sched.ScheduleCallback(cb, thread);
      owed := owed + if need then 1 else 0;
      if cb.Some? {
        OneMore(Task(null, cb, thread));
      } else {
        assert sched.fibers == old(sched.fibers);
      }
    }

    /** The wake-up of an armed event or of a semaphore: schedule(&ctx.fiber), schedule(waiter). */
    method Release(f: Fiber, ghost owner: object)
      requires Valid() && f in sched.parked && sched.parked[f] == owner
      modifies this`owed, sched`fibers, sched`issued, sched`parked
      ensures Valid() && sched.fibers == old(sched.fibers) + [Task(f, None, -1)]
      ensures owed == old(owed) + if old(sched.fibers) == [] then 1 else 0
      ensures Stuck() <==> old(Stuck()) || (old(Quiet() && sched.fibers != [] && !Wanted()) && For(-1))
    {
      hide Scheduler.Valid, Up, For, Share, Rest;
      var need := sched.ScheduleParked(f, owner);
      owed := owed + if need then 1 else 0;
      OneMore(Task(f, None, -1));
    }

    /** schedule(begin, end): the functions of expired timers. */
    method PostBatch(cbs: seq<Option<Callback>>)
      requires Valid()
      modifies this`owed, sched`fibers, sched`issued
      ensures Valid() && sched.fibers == old(sched.fibers) + CallbackTasks(cbs)
      ensures owed == old(owed) + if old(sched.fibers) == [] && cbs != [] then 1 else 0
      ensures Stuck() <==>
              old(Stuck())
              || (old(Quiet() && sched.fibers != [] && !Wanted()) && CallbackTasks(cbs) != [] && For(-1))
    {
      hide Scheduler.Valid, Up, For, CallbackTasks;
      var need := sched.ScheduleBatch(cbs);
      owed := owed + if need then 1 else 0;
      ForAnyThread(cbs);
      SomeMore(CallbackTasks(cbs));
      assert CallbackTasks(cbs) != [] && For(-1) ==> For(CallbackTasks(cbs)[0].thread);
      assert cbs == [] ==> CallbackTasks(cbs) == [] by { NoTasks(); }
    }

    lemma NoTasks()
      ensures CallbackTasks([]) == []
    {
    }

    lemma {:induction false} ForAnyThread(cbs: seq<Option<Callback>>)
      ensures forall j :: 0 <= j < |CallbackTasks(cbs)| ==> CallbackTasks(cbs)[j].thread == -1
    {
      if cbs != [] {
        ForAnyThread(cbs[..|cbs| - 1]);
      }
    }

    twostate lemma OneMore(new t: Task)
      requires sched.workers == old(sched.workers) && sched.fibers == old(sched.fibers) + [t]
      ensures Wanted() <==> old(Wanted()) || For(t.thread)
    {
      hide For;
      SomeMore([t]);
      assert For(t.thread) ==> For([t][0].thread);
    }

    twostate lemma SomeMore(new ts: seq<Task>)
      requires sched.workers == old(sched.workers) && sched.fibers == old(sched.fibers) + ts
      ensures Wanted() <==> old(Wanted()) || exists j :: 0 <= j < |ts| && For(ts[j].thread)
    {
      hide For;
      forall thread: int
        ensures For(thread) == old(For(thread))
      {
        SameFor(thread);
      }
      if old(Wanted()) {
        var j :| 0 <= j < |old(sched.fibers)| && old(For(sched.fibers[j].thread));
        assert For(sched.fibers[j].thread);
      }
      if j :| 0 <= j < |ts| && For(ts[j].thread) {
        assert sched.fibers[|old(sched.fibers)| + j] == ts[j];
      }
    }

    twostate lemma SameFor(new thread: int)
      requires sched.workers == old(sched.workers)
      ensures For(thread) == old(For(thread))
    {
    }

    /** tickle(): nothing is written while nobody is counted as idle. The last call that is owed strands a
        task exactly if the pipe is empty and every worker that is still in its loop stands between a vain
        scan and the count. */
    method Tell()
      requires Valid() && owed > 0
      modifies this`owed, this`pipe
      ensures Valid() && owed == old(owed) - 1
      ensures pipe == old(pipe) + if sched.idle == 0 then 0 else 1
      ensures Stuck() <==>
              && owed == 0 && pipe == 0 && Wanted()
              && forall w :: 0 <= w < |sched.workers| ==> w in missed || sched.workers[w].phase.Exited?
    {
      hide Scheduler.Valid, For, Wanted;
      owed := owed - 1;
      if sched.idle == 0 {
        NobodyCounted();
        return;
      }
      pipe := pipe + 1;
    }

    /** While nobody is counted as idle, the sleeping workers are those before the count. */
    lemma NobodyCounted()
      requires Valid() && sched.idle == 0
      ensures Asleep() <==> forall w :: 0 <= w < |sched.workers| ==> w in missed || sched.workers[w].phase.Exited?
    {
      hide Scheduler.Valid, Up;
      sched.NobodyIdles();
      forall w | 0 <= w < |sched.workers|
        ensures !Up(w) <==> w in missed || sched.workers[w].phase.Exited?
      {
        UpMeans(w);
      }
    }

    // ----- the run loop -----

    /** A task of another thread stands before the first one that this thread may run. */
    predicate PassedOver(q: seq<Task>, thread: int)
      reads set t | t in q && t.fiber != null :: t.fiber
    {
      exists j :: 0 <= j < |q| && q[j].thread !in {-1, thread}
                  && forall l :: 0 <= l <= j ==> !sched.Runnable(q[l], thread)
    }

    /** The scan never strands a task: what it passes over for others is announced, what it passes over
        because it executes is somebody's work. */
    method Scan(i: nat)
      requires Valid() && i < |sched.workers| && sched.workers[i].phase.Scanning? && i !in missed
      modifies this`missed, this`owed, sched`fibers, sched`workers, sched`active
      ensures Valid() && !Stuck() && missed <= old(missed) + {i} && old(missed) <= missed
      ensures i in missed <==> forall j :: 0 <= j < |old(sched.fibers)| ==>
                !sched.Runnable(old(sched.fibers)[j], old(sched.workers)[i].thread)
      ensures i in missed ==> sched.fibers == old(sched.fibers) && sched.workers == old(sched.workers)
      ensures i !in missed ==> sched.workers[i].phase.Picked?
      ensures owed == old(owed) + if PassedOver(old(sched.fibers), old(sched.workers)[i].thread) then 1 else 0
    {
      hide Scheduler.Valid, Up, For, Wanted;
      var length := |sched.fibers|;
      ghost var q := sched.fibers;
      var tickle, at := sched.Dequeue(i);
      assert at < length ==> sched.Runnable(q[at], old(sched.workers)[i].thread);
      owed := owed + if tickle then 1 else 0;
      if at == length {
        missed := missed + {i};
        if !tickle {
          NothingForAnyone(i);
        }
      } else {
        UpMeans(i);
      }
    }

    /** A vain scan that passed over nothing for others: only executing fibers are queued, if any. */
    lemma NothingForAnyone(i: nat)
      requires Valid() && i < |sched.workers|
      requires forall j :: 0 <= j < |sched.fibers| ==>
                !sched.Runnable(sched.fibers[j], sched.workers[i].thread)
                && sched.fibers[j].thread in {-1, sched.workers[i].thread}
      ensures !Stuck()
    {
      hide Scheduler.Valid, Up;
      if sched.fibers != [] {
        sched.NobodyExecutes(0);
        var w :| 0 <= w < |sched.workers| && sched.workers[w].phase.Running?;
        UpMeans(w);
        assert Up(w);
      }
    }

    /** The branches of the run loop behind a successful scan, up to the end of the segment or to its start. */
    method Act(i: nat)
      requires Valid() && i < |sched.workers| && sched.workers[i].phase.Picked?
      modifies sched`workers, sched`active, sched`consumed, sched`all, sched.all
      ensures Valid() && !Stuck() && sched.fibers == old(sched.fibers)
      ensures var task := old(sched.workers)[i].phase.task;
              if task.fiber == null
              then && sched.workers[i].phase.Running? && task.cb.Some?
                   && sched.workers[i].phase.ticket == OfCallback(task.cb.value)
                   && sched.workers[i].phase.fiber.cb == task.cb && sched.workers[i].phase.fiber.state == EXEC
              else if old(task.fiber.state) == TERM || old(task.fiber.state) == EXCEPT
              then sched.workers[i].phase == Scanning
                   && sched.consumed == old(sched.consumed) + multiset{OfFiber(task.fiber)}
              else sched.workers[i].phase == Running(task.fiber, OfFiber(task.fiber)) && task.fiber.state == EXEC
    {
      hide Scheduler.Valid, Scheduler.MayWake, Up, For, Wanted;
      sched.KnownAt(i);
      var task := sched.workers[i].phase.task;
      if task.fiber != null && !task.fiber.Ended() {
        sched.StartFiber(i);
      } else if task.cb.Some? {
        var f := sched.StartCallback(i);
      } else {
        sched.Discard(i);
      }
      UpMeans(i);
    }

    /** The end of a segment; a fiber that yields ready is queued with schedule. */
    method Finish(i: nat, how: Leave)
      requires Valid() && i < |sched.workers| && sched.workers[i].phase.Running?
      requires how.Silent() ==> sched.Pending(sched.workers[i].phase.fiber) == 0
      modifies this`owed, sched`workers, sched`active, sched`consumed, sched`fibers, sched`issued
      modifies sched.workers[i].phase.fiber
      ensures Valid() && !Stuck()
      ensures owed == old(owed) + if how == YieldReady && old(sched.fibers) == [] then 1 else 0
    {
      hide Scheduler.Valid, Scheduler.Pending, Up, For, Wanted;
      if how == YieldReady && sched.fibers == [] {
        owed := owed + 1;
      }
      sched.EndSegment(i, how);
      UpMeans(i);
    }

    /** After a vain scan the worker is counted as idle and enters the idle loop, or exits. */
    method GoIdle(i: nat)
      requires Valid() && i in missed
      modifies this`missed, sched`workers, sched`idle, sched.idlers
      ensures Valid() && missed == old(missed) - {i} && sched.fibers == old(sched.fibers)
      ensures (Asleep() <==> old(Asleep())) && (Stuck() <==> old(Stuck()) && Wanted())
      ensures sched.workers == old(sched.workers)[i := old(sched.workers)[i].(phase :=
                if old(sched.idlers[i].state) == TERM then Exited else Idling)]
      ensures sched.workers[i].phase.Idling? ==> (Stuck() <==> old(Stuck()))
    {
      hide Scheduler.Valid, Up, For, Wanted;
      sched.EnterIdle(i);
      missed := missed - {i};
      WentIdle(i);
    }

    twostate lemma WentIdle(new i: nat)
      requires old(Placed()) && i in old(missed) && missed == old(missed) - {i} && back == old(back)
      requires i < |old(sched.workers)| && sched.fibers == old(sched.fibers)
      requires var w := old(sched.workers)[i];
               || sched.workers == old(sched.workers)[i := w.(phase := Idling)]
               || sched.workers == old(sched.workers)[i := w.(phase := Exited)]
      ensures Placed() && (Asleep() <==> old(Asleep()))
      ensures Wanted() ==> old(Wanted())
      ensures sched.workers[i].phase.Idling? ==> (Wanted() <==> old(Wanted()))
    {
      hide Wanted, For;
      forall w: nat | w < |sched.workers|
        ensures Up(w) == old(Up(w))
      {
      }
      WentIdleFor(i);
      WantedBy();
    }

    twostate lemma WentIdleFor(new i: nat)
      requires i < |old(sched.workers)|
      requires var w := old(sched.workers)[i];
               w.phase.Scanning? && (sched.workers == old(sched.workers)[i := w.(phase := Idling)]
                                     || sched.workers == old(sched.workers)[i := w.(phase := Exited)])
      ensures forall thread: int :: For(thread) ==> old(For(thread))
      ensures sched.workers[i].phase.Idling? ==> forall thread: int :: old(For(thread)) ==> For(thread)
    {
      forall thread: int | sched.workers[i].phase.Idling? && old(For(thread))
        ensures For(thread)
      {
        var w :| 0 <= w < |old(sched.workers)| && !old(sched.workers)[w].phase.Exited?
                 && thread in {-1, old(sched.workers)[w].thread};
        assert !sched.workers[w].phase.Exited? && thread in {-1, sched.workers[w].thread};
      }
    }

    twostate lemma WantedBy()
      requires sched.fibers == old(sched.fibers) && forall thread: int :: For(thread) ==> old(For(thread))
      ensures Wanted() ==> old(Wanted())
      ensures (forall thread: int :: old(For(thread)) ==> For(thread)) ==> (old(Wanted()) ==> Wanted())
    {
      hide For;
    }

    // ----- the idle loop -----

    /** epoll_wait returns, for whatever reason. */
    method Return(i: nat)
      requires Valid() && i < |sched.workers| && sched.workers[i].phase.Idling? && i !in back
      modifies this`back
      ensures Valid() && !Stuck() && back == old(back) + {i}
    {
      hide Scheduler.Valid, Up;
      back := back + {i};
      UpMeans(i);
    }

    /** The pipe was reported readable: all its bytes are read. */
    method Drain(i: nat)
      requires Valid() && i in back
      modifies this`pipe
      ensures Valid() && !Stuck() && pipe == 0
    {
      hide Scheduler.Valid, Up;
      pipe := 0;
      UpMeans(i);
    }

    /** The worker goes back to its run loop. */
    method GoBack(i: nat)
      requires Valid() && i in back
      modifies this`back, sched`workers, sched`idle, sched.idlers
      ensures Valid() && !Stuck() && back == old(back) - {i} && sched.workers[i].phase.Scanning?
    {
      hide Scheduler.Valid, Up, Wanted;
      sched.LeaveIdle(i, false);
      back := back - {i};
      UpMeans(i);
    }

    /** The stopping test at the top of the idle loop has held. */
    method End(i: nat)
      requires Valid() && i < |sched.workers| && sched.workers[i].phase.Idling? && i !in back && sched.Stopping()
      modifies sched`workers, sched`idle, sched.idlers
      ensures Valid() && !Stuck() && sched.workers[i].phase.Scanning?
    {
      hide Scheduler.Valid, Up, Wanted;
      sched.LeaveIdle(i, true);
      UpMeans(i);
    }

    /** A timer at the front of the set: onTimerInsertedAtFront calls tickle. */
    method TimerHook()
      requires Valid()
      modifies this`owed
      ensures Valid() && !Stuck() && owed == old(owed) + 1
    {
      hide Scheduler.Valid, Up;
      owed := owed + 1;
    }

    /** stop(): one call of tickle for each worker. */
    method Stop()
      requires Valid()
      modifies this`owed, sched`autoStop, sched`stopping
      ensures Valid() && !Stuck() && owed == old(owed) + |sched.workers|
    {
      hide Scheduler.Valid, Up;
      sched.RequestStop();
      owed := owed + |sched.workers|;
    }
  }

  /** One worker. A function is queued between the vain scan and the count: nobody is told, and the worker
      waits. */
  method Stranded(cb: Callback) returns (a: Alarm)
    ensures a.Valid() && a.Stuck() && a.sched.fibers == [Task(null, Some(cb), -1)]
    ensures |a.sched.workers| == 1 && a.sched.workers[0].phase.Idling?
  {
    hide Scheduler.Valid, Alarm.Valid, Alarm.Up;
    var sched := new Scheduler([0]);
    sched.KnownIdlers();
    assert sched.idlers[0] in sched.idlers;
    a := new Alarm(sched);
    a.Scan(0);
    a.PostCallback(Some(cb), -1);
    assert a.For(sched.fibers[0].thread);
    a.Tell();
    a.GoIdle(0);
  }

  lemma NotForZero(a: Alarm, first: Callback)
    requires a.sched.fibers == [Task(null, Some(first), 1)]
    ensures a.PassedOver(a.sched.fibers, 0)
    ensures forall j :: 0 <= j < |a.sched.fibers| ==> !a.sched.Runnable(a.sched.fibers[j], 0)
  {
    assert !a.sched.Runnable(a.sched.fibers[0], 0) && a.sched.fibers[0].thread !in {-1, 0};
  }

  /** One worker, and a function for the thread that called the constructor, which joins the workers only in
      stop(). The worker passes it over and goes to wait. */
  method PassesOver(first: Callback) returns (a: Alarm)
    ensures fresh(a) && fresh(a.sched) && a.Valid() && a.Quiet() && a.sched.fibers == [Task(null, Some(first), 1)]
    ensures a.sched.workers == [Worker(0, Idling, null)]
  {
    hide Scheduler.Valid, Alarm.Valid, Alarm.Up, Alarm.Wanted, Alarm.PassedOver, Alarm.For;
    var sched := new Scheduler([0]);
    sched.KnownIdlers();
    assert sched.idlers[0] in sched.idlers;
    a := new Alarm(sched);
    a.PostCallback(Some(first), 1);
    a.Tell();
    NotForZero(a, first);
    a.Scan(0);
    a.Tell();
    a.NobodyCounted();
    a.GoIdle(0);
  }

  /** A function for any thread that is queued behind it is not announced, although the worker waits. */
  method Overtaken(cb: Callback, first: Callback) returns (a: Alarm)
    ensures a.Valid() && a.Stuck() && a.sched.fibers == [Task(null, Some(first), 1), Task(null, Some(cb), -1)]
    ensures a.sched.workers == [Worker(0, Idling, null)]
  {
    hide Scheduler.Valid, Alarm.Valid, Alarm.Up;
    a := PassesOver(first);
    assert a.sched.workers[0].thread == 0 && !a.For(1) && a.For(-1);
    a.PostCallback(Some(cb), -1);
  }
}
