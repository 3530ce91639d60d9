/** The whole runtime: one scheduler with its I/O manager and timers, any number of semaphores and of hooked
    calls. Every step of every part keeps the invariants of all parts, so each of them holds in every
    reachable state of every interleaving. */
module Runtimes {
  import opened Prelude
  import opened Fibers
  import opened Schedulers
  import opened FiberSemaphores
  import opened Timers
  import opened IOManagers
  import opened HookedIo

  datatype SchedulerStep =
    | Dequeue(i: nat)
    | StartFiber(i: nat)
    | StartCallback(i: nat)
    | Discard(i: nat)
    | EndSegment(i: nat, how: Leave)
    | EnterIdle(i: nat)
    | LeaveIdle(i: nat)
    | Schedule(f: Fiber, thread: int)
    | ScheduleCallback(cb: Option<Callback>, thread: int)
    | Create(cb: Option<Callback>)
    | RequestStop
    | Start

  datatype TimerStep =
    | NextTimer(now: U64)
    | NewTimer(ms: U64, cb: Option<Callback>, recurring: bool, now: U64, addr: nat)
    | CancelTimer(t: Timer)
    | RefreshTimer(t: Timer, now: U64)
    | ResetTimer(t: Timer, period: U64, fromNow: bool, now: U64)
    | FreeTimer(t: Timer)

  datatype EventStep =
    | Add(fd: nat, e: Event, cb: Option<Callback>, caller: Fiber, mine: Scheduler?, refuse: bool)
    | Delete(fd: nat, e: Event, refuse: bool)
    | Cancel(fd: nat, e: Event, refuse: bool)
    | CancelBoth(fd: nat, refuse: bool)

  datatype SemaphoreStep = TryWait | Wait(caller: Fiber) | Notify

  datatype CallStep =
    | Try(r: SysResult, cb: Callback, now: U64, addr: nat)
    | Enlist(refuse: bool)
    | Resume
    | Enter(t: Timer)
    | Mark(t: Timer)
    | CancelMarked(refuse: bool)

  function TheTimer(t: Timer?): set<Timer> {
    if t == null then {} else {t}
  }

  function SetOf(ts: seq<Timer>): set<Timer> {
    set t | t in ts
  }

  class Runtime {
    const sched: Scheduler
    const timers: TimerManager
    const iom: IOManager
    ghost var semaphores: set<FiberSemaphore>
    ghost var calls: set<DoIo>
    /** Workers between the two locks of listExpiredCb, with their clock readings; and the functions of expired
        timers that an idling worker has collected and not queued yet (cbs). */
    var looked: map<nat, U64>
    var hands: map<nat, seq<Option<Callback>>>

    ghost predicate Bound()
      reads this
    {
      && iom.sched == sched && iom.timers == timers
      && (forall s :: s in semaphores ==> s.sched == sched)
      && (forall c :: c in calls ==> c.iom == iom && c.timers == timers)
    }

    /** Only a worker in its idle loop is about to collect functions, or has collected some. */
    ghost predicate HandsIdle()
      reads this`looked, this`hands, sched`workers
    {
      && looked.Keys !! hands.Keys
      && forall w :: w in looked || w in hands ==> w < |sched.workers| && sched.workers[w].phase.Idling?
    }

    /** The worker is in its idle loop, and neither about to collect functions nor holding any. */
    predicate IdlesFree(w: nat)
      reads this`looked, this`hands, sched`workers
    {
      w < |sched.workers| && sched.workers[w].phase.Idling? && w !in looked && w !in hands
    }

    ghost predicate Valid()
      reads this, semaphores, calls, sched, sched.all, sched.idlers
      reads timers, timers.timers, timers.all, iom, iom.contexts
    {
      && Bound() && sched.Valid() && timers.Valid() && iom.Valid()
      && (forall s :: s in semaphores ==> s.Valid())
      && (forall c :: c in calls ==> c.Valid())
      && HandsIdle()
    }

    constructor (threads: seq<int>, now: U64)
      requires threads != []
      ensures Valid() && semaphores == {} && calls == {} && hands == map[] && looked == map[]
      ensures fresh(sched) && fresh(iom) && fresh(timers)
    {
      hide Scheduler.Valid, TimerManager.Valid, IOManager.Valid;
      var s := new Scheduler(threads);
      var t := new TimerManager(now);
      var m := new IOManager(s, t);
      sched, timers, iom, semaphores, calls, looked, hands := s, t, m, {}, {}, map[], map[];
    }

    // ----- what is left to prove after a step of one part -----

    /** Semaphores other than the one that moved. */
    twostate lemma SemaphoresBeside(moved: object)
      requires old(Valid()) && Bound() && semaphores == old(semaphores) && sched.Valid()
      requires forall s :: s in semaphores && s != moved ==> unchanged(s)
      requires Rest(sched.parked, moved) == old(Rest(sched.parked, moved))
      ensures forall s :: s in semaphores && s != moved ==> s.Valid()
    {
      hide Scheduler.Valid, TimerManager.Valid, IOManager.Valid, DoIo.Valid, FiberSemaphore.Valid, Rest, Share;
      forall s | s in semaphores && s != moved
        ensures s.Valid()
      {
        ShareOfOther(old(sched.parked), sched.parked, moved, s);
        s.Beside();
      }
    }

    /** Calls other than the one that moved. */
    twostate lemma CallsBeside(new moved: object)
      requires old(Valid()) && Bound() && calls == old(calls) && timers.Valid() && iom.Valid()
      requires forall c :: c in calls && c != moved ==> unchanged(c) && c.Held()
      requires timers.Onward() && iom.Onward() && old(sched.all) <= sched.all
      ensures forall c :: c in calls && c != moved ==> c.Valid()
    {
      hide Scheduler.Valid, TimerManager.Valid, IOManager.Valid, FiberSemaphore.Valid;
      hide TimerManager.Onward, IOManager.Onward, DoIo.Timed, DoIo.Noted, DoIo.Held;
      forall c | c in calls && c != moved
        ensures c.Valid()
      {
        c.OthersKeep();
      }
    }

    /** Timers that a call holds are alive. */
    lemma CallsHold()
      requires Valid()
      ensures forall c :: c in calls ==> c.Held()
    {
      hide Scheduler.Valid, TimerManager.Valid, IOManager.Valid, FiberSemaphore.Valid, DoIo.Noted;
    }

    // ----- the steps -----

    ghost predicate Possible(s: SchedulerStep)
      reads this, sched, sched.all
    {
      match s
      case Dequeue(i) => i < |sched.workers| && sched.workers[i].phase.Scanning?
      case StartFiber(i) =>
        && i < |sched.workers| && sched.workers[i].phase.Picked? && sched.workers[i].phase.task.fiber != null
        && sched.workers[i].phase.task.fiber in sched.all && !sched.workers[i].phase.task.fiber.Ended()
      case StartCallback(i) =>
        i < |sched.workers| && sched.workers[i].phase.Picked? && sched.workers[i].phase.task.cb.Some?
      case Discard(i) =>
        && i < |sched.workers| && sched.workers[i].phase.Picked? && sched.workers[i].phase.task.fiber != null
        && sched.workers[i].phase.task.fiber in sched.all && sched.workers[i].phase.task.fiber.Ended()
      case EndSegment(i, how) =>
        && i < |sched.workers| && sched.workers[i].phase.Running?
        && (how.Silent() ==> sched.Pending(sched.workers[i].phase.fiber) == 0)
      case EnterIdle(i) => i < |sched.workers| && sched.workers[i].phase.Scanning?
      case LeaveIdle(i) => IdlesFree(i)
      case Schedule(f, _) => f in sched.all && sched.MayWake(f)
      case _ => true
    }

    /** What each step of a worker or of a running fiber does to the queue and to the workers. */
    twostate predicate SchedulerDid(new s: SchedulerStep)
      reads sched, sched.all, sched.idlers
    {
      var before, now, q := old(sched.workers), sched.workers, old(sched.fibers);
      match s
      case Dequeue(i) =>
        exists at :: 0 <= at <= |q| && Scanned(i, at)
      case StartFiber(i) =>
        && sched.fibers == q && i < |before| && before[i].phase.Picked? && before[i].phase.task.fiber != null
        && now == before[i := before[i].(phase := Running(before[i].phase.task.fiber,
                                                          OfFiber(before[i].phase.task.fiber)))]
      case StartCallback(i) =>
        && sched.fibers == q && i < |before| == |now| && before[i].phase.Picked? && before[i].phase.task.cb.Some?
        && now[i].phase.Running? && now[i].phase.ticket == OfCallback(before[i].phase.task.cb.value)
        && now[i].spare == now[i].phase.fiber && (before[i].spare != null ==> now[i].spare == before[i].spare)
        && now == before[i := now[i]] && now[i].thread == before[i].thread
      case Discard(i) =>
        && sched.fibers == q && i < |before| && now == before[i := before[i].(phase := Scanning)]
        && before[i].phase.Picked? && before[i].phase.task.fiber != null
        && sched.consumed == old(sched.consumed) + multiset{OfFiber(before[i].phase.task.fiber)}
      case EndSegment(i, how) =>
        && i < |before| == |now| && before[i].phase.Running? && now == before[i := now[i]]
        && now[i].phase.Scanning? && now[i].thread == before[i].thread
        && sched.consumed == old(sched.consumed) + multiset{before[i].phase.ticket}
        && sched.fibers == q + if how == YieldReady then [Task(before[i].phase.fiber, None, -1)] else []
      case EnterIdle(i) =>
        && sched.fibers == q && i < |before| && i < |sched.idlers|
        && now == before[i := before[i].(phase := if old(sched.idlers[i].state) == TERM then Exited else Idling)]
      case LeaveIdle(i) =>
        sched.fibers == q && i < |before| && now == before[i := before[i].(phase := Scanning)]
      case Schedule(f, thread) => now == before && sched.fibers == q + [Task(f, None, thread)]
      case ScheduleCallback(cb, thread) =>
        now == before && sched.fibers == q + if cb.Some? then [Task(null, cb, thread)] else []
      case Create(cb) =>
        && now == before && sched.fibers == q && |sched.all - old(sched.all)| == 1
        && forall f :: f in sched.all - old(sched.all) ==> f.state == INIT && f.cb == cb
      case RequestStop => now == before && sched.fibers == q && sched.autoStop && sched.stopping
      case Start => now == before && sched.fibers == q && !sched.stopping && sched.autoStop == old(sched.autoStop)
    }

    /** The scan of worker i ends at place `at` of the queue, with the first task it may run or without one. */
    twostate predicate Scanned(new i: nat, new at: nat)
      requires at <= |old(sched.fibers)|
      reads sched, sched.all
    {
      var before, now, q := old(sched.workers), sched.workers, old(sched.fibers);
      && i < |before|
      && (forall j :: 0 <= j < at ==> !old(sched.Runnable(sched.fibers[j], sched.workers[i].thread)))
      && if at == |q| then sched.fibers == q && now == before
         else && old(sched.Runnable(sched.fibers[at], sched.workers[i].thread))
              && sched.fibers == q[..at] + q[at + 1..] && now == before[i := before[i].(phase := Picked(q[at]))]
    }

    method SchedulerMoves(s: SchedulerStep)
      requires Valid() && Possible(s)
      modifies sched, sched.all, sched.idlers
      ensures Valid() && sched.parked == old(sched.parked) && SchedulerDid(s)
    {
      hide Scheduler.Valid, TimerManager.Valid, IOManager.Valid, FiberSemaphore.Valid, DoIo.Valid, Scheduler.MayWake;
      hide Rest, Share, DoIo.Held, SchedulerDid;
      CallsHold();
      Step(s);
      iom.Beside();
      SemaphoresBeside(this);
      CallsBeside(this);
    }

    method Step(s: SchedulerStep)
      requires sched.Valid() && Possible(s)
      modifies sched, sched.all, sched.idlers
      ensures sched.Valid() && sched.parked == old(sched.parked) && old(sched.all) <= sched.all
      ensures |sched.workers| == |old(sched.workers)| && SchedulerDid(s)
      ensures forall w :: 0 <= w < |sched.workers| && old(sched.workers)[w].phase.Idling? && s != LeaveIdle(w) ==>
                sched.workers[w].phase.Idling?
    {
      hide Scheduler.Valid, Scheduler.MayWake, Scheduler.Pending, SchedulerDid, Possible;
      match s {
        case Dequeue(i) => Scans(s);
        case StartFiber(i) => StartsFiber(s);
        case StartCallback(i) => StartsCallback(s);
        case Discard(i) => Discards(s);
        case EndSegment(i, how) => Ends(s);
        case EnterIdle(i) => Rests(s);
        case LeaveIdle(i) => Rests(s);
        case _ => Used(s);
      }
    }

    method Scans(s: SchedulerStep)
      requires sched.Valid() && Possible(s) && s.Dequeue?
      modifies sched, sched.all, sched.idlers
      ensures sched.Valid() && sched.parked == old(sched.parked) && old(sched.all) <= sched.all
      ensures |sched.workers| == |old(sched.workers)| && SchedulerDid(s)
      ensures forall w :: 0 <= w < |sched.workers| && old(sched.workers)[w].phase.Idling? && s != LeaveIdle(w) ==>
                sched.workers[w].phase.Idling?
    {
      hide Scheduler.Valid, Scheduler.MayWake, Scheduler.Pending;
      var tickle, at := sched.Dequeue(s.i);
      assert Scanned(s.i, at);
    }

    method StartsFiber(s: SchedulerStep)
      requires sched.Valid() && Possible(s) && s.StartFiber?
      modifies sched, sched.all, sched.idlers
      ensures sched.Valid() && sched.parked == old(sched.parked) && old(sched.all) <= sched.all
      ensures |sched.workers| == |old(sched.workers)| && SchedulerDid(s)
      ensures forall w :: 0 <= w < |sched.workers| && old(sched.workers)[w].phase.Idling? && s != LeaveIdle(w) ==>
                sched.workers[w].phase.Idling?
    {
      hide Scheduler.Valid, Scheduler.MayWake, Scheduler.Pending;
      sched.StartFiber(s.i);
    }

    method StartsCallback(s: SchedulerStep)
      requires sched.Valid() && Possible(s) && s.StartCallback?
      modifies sched, sched.all, sched.idlers
      ensures sched.Valid() && sched.parked == old(sched.parked) && old(sched.all) <= sched.all
      ensures |sched.workers| == |old(sched.workers)| && SchedulerDid(s)
      ensures forall w :: 0 <= w < |sched.workers| && old(sched.workers)[w].phase.Idling? && s != LeaveIdle(w) ==>
                sched.workers[w].phase.Idling?
    {
      hide Scheduler.Valid, Scheduler.MayWake, Scheduler.Pending;
      sched.KnownAt(s.i);
      var f := sched.StartCallback(s.i);
    }

    method Discards(s: SchedulerStep)
      requires sched.Valid() && Possible(s) && s.Discard?
      modifies sched, sched.all, sched.idlers
      ensures sched.Valid() && sched.parked == old(sched.parked) && old(sched.all) <= sched.all
      ensures |sched.workers| == |old(sched.workers)| && SchedulerDid(s)
      ensures forall w :: 0 <= w < |sched.workers| && old(sched.workers)[w].phase.Idling? && s != LeaveIdle(w) ==>
                sched.workers[w].phase.Idling?
    {
      hide Scheduler.Valid, Scheduler.MayWake, Scheduler.Pending;
      sched.Discard(s.i);
    }

    method Ends(s: SchedulerStep)
      requires sched.Valid() && Possible(s) && s.EndSegment?
      modifies sched, sched.all, sched.idlers
      ensures sched.Valid() && sched.parked == old(sched.parked) && old(sched.all) <= sched.all
      ensures |sched.workers| == |old(sched.workers)| && SchedulerDid(s)
      ensures forall w :: 0 <= w < |sched.workers| && old(sched.workers)[w].phase.Idling? && s != LeaveIdle(w) ==>
                sched.workers[w].phase.Idling?
    {
      hide Scheduler.Valid, Scheduler.MayWake, Scheduler.Pending;
      sched.KnownAt(s.i);
      sched.EndSegment(s.i, s.how);
    }

    method Rests(s: SchedulerStep)
      requires sched.Valid() && Possible(s) && (s.EnterIdle? || s.LeaveIdle?)
      modifies sched, sched.all, sched.idlers
      ensures sched.Valid() && sched.parked == old(sched.parked) && old(sched.all) <= sched.all
      ensures |sched.workers| == |old(sched.workers)| && SchedulerDid(s)
      ensures forall w :: 0 <= w < |sched.workers| && old(sched.workers)[w].phase.Idling? && s != LeaveIdle(w) ==>
                sched.workers[w].phase.Idling?
    {
      hide Scheduler.Valid, Scheduler.MayWake, Scheduler.Pending;
      sched.KnownIdlers();
      if s.EnterIdle? {
        sched.EnterIdle(s.i);
      } else {
        sched.LeaveIdle(s.i, false);
      }
    }

    method Used(s: SchedulerStep)
      requires sched.Valid() && Possible(s)
               && (s.Schedule? || s.ScheduleCallback? || s.Create? || s.RequestStop? || s.Start?)
      modifies sched, sched.all, sched.idlers
      ensures sched.Valid() && sched.parked == old(sched.parked) && old(sched.all) <= sched.all
      ensures |sched.workers| == |old(sched.workers)| && SchedulerDid(s)
      ensures forall w :: 0 <= w < |sched.workers| && old(sched.workers)[w].phase.Idling? && s != LeaveIdle(w) ==>
                sched.workers[w].phase.Idling?
    {
      hide Scheduler.Valid, Scheduler.MayWake, Scheduler.Pending;
      match s {
        case Schedule(f, thread) => var need := sched.Schedule(f, thread);
        case ScheduleCallback(cb, thread) => var need := sched.ScheduleCallback(cb, thread);
        case Create(cb) =>
          var f := sched.Create(cb);
          assert sched.all - old(sched.all) == {f};
        case RequestStop => sched.RequestStop();
        case Start => sched.Start();
      }
    }

    ghost predicate TimerPossible(s: TimerStep)
      reads this, calls, timers
    {
      match s
      case NewTimer(_, _, _, _, addr) => forall t :: t in timers.live ==> t.addr != addr
      case CancelTimer(t) => t in timers.live
      case RefreshTimer(t, _) => t in timers.live
      case ResetTimer(t, _, _, _) => t in timers.live
      case FreeTimer(t) => t in timers.live && t !in timers.timers && forall c :: c in calls ==> c.Current() != t
      case _ => true
    }

    /** What each operation on the timers does to the set and to its timer. */
    twostate predicate TimerDid(s: TimerStep)
      reads timers, timers.all, timers.timers
    {
      var before, now := old(timers.timers), timers.timers;
      match s
      case NextTimer(_) => now == before && !timers.tickled
        && timers.seen == if now == [] then None else Some(now[0].next)
      case NewTimer(ms, cb, recurring, at, addr) =>
        && old(timers.all) <= timers.all && |timers.all - old(timers.all)| == 1
        && (forall t :: t in timers.all - old(timers.all) ==>
              && t.next == Wrap(at + ms) && t.ms == ms && t.cb == cb && t.recurring == recurring && t.addr == addr)
        && SetOf(now) == SetOf(before) + (timers.all - old(timers.all))
      case CancelTimer(t) =>
        && t in old(timers.all) && t in timers.all && t.cb == None && t.next == old(t.next)
        && SetOf(now) == SetOf(before) - if old(t.cb).Some? then {t} else {}
      case RefreshTimer(t, at) =>
        && t in old(timers.all) && t in timers.all && t.cb == old(t.cb) && t.ms == old(t.ms)
        && SetOf(now) == SetOf(before)
        && t.next == if t.cb.Some? then Wrap(at + t.ms) else old(t.next)
      case ResetTimer(t, period, fromNow, at) =>
        && t in old(timers.all) && t in timers.all && t.cb == old(t.cb) && SetOf(now) == SetOf(before)
        && if t.cb.None? || (period == old(t.ms) && !fromNow) then t.ms == old(t.ms) && t.next == old(t.next)
           else && t.ms == period
                && t.next == Wrap(if fromNow then at + period else Wrap(old(t.next) - old(t.ms)) + period)
      case FreeTimer(t) => now == before && timers.live == old(timers.live) - {t}
    }

    method TimersMove(s: TimerStep)
      requires Valid() && TimerPossible(s)
      modifies timers, timers.all
      ensures Valid() && timers.Onward() && TimerDid(s)
    {
      hide Scheduler.Valid, TimerManager.Valid, IOManager.Valid, FiberSemaphore.Valid, DoIo.Valid, TimerManager.Onward;
      hide Rest, Share, TimerDid;
      CallsHold();
      Tick(s);
      SemaphoresBeside(this);
      CallsBeside(this);
    }

    method Tick(s: TimerStep)
      requires timers.Valid() && TimerPossible(s)
      modifies timers, timers.all
      ensures timers.Valid() && timers.Onward() && TimerDid(s)
      ensures forall t :: t in old(timers.live) && t !in timers.live ==> s == FreeTimer(t)
    {
      hide TimerManager.Valid, Wrap, TimerDid, TimerManager.Onward;
      timers.Known();
      match s {
        case NextTimer(_) => Tend(s);
        case NewTimer(_, _, _, _, _) => Adds(s);
        case FreeTimer(_) => Tend(s);
        case _ =>
          TimerKnown(s.t);
          Turns(s);
      }
    }

    method Tend(s: TimerStep)
      requires timers.Valid() && TimerPossible(s) && (s.NextTimer? || s.FreeTimer?)
      modifies timers
      ensures timers.Valid() && timers.Onward() && TimerDid(s)
      ensures forall t :: t in old(timers.live) && t !in timers.live ==> s == FreeTimer(t)
    {
      hide TimerManager.Valid, Wrap;
      if s.NextTimer? {
        var wait := timers.GetNextTimer(s.now);
      } else {
        timers.Free(s.t);
      }
    }

    method Adds(s: TimerStep)
      requires timers.Valid() && TimerPossible(s) && s.NewTimer?
      modifies timers
      ensures timers.Valid() && timers.Onward() && TimerDid(s)
      ensures forall t :: t in old(timers.live) && t !in timers.live ==> s == FreeTimer(t)
    {
      hide TimerManager.Valid, Wrap;
      var t := timers.AddTimer(s.ms, s.cb, s.recurring, s.now, s.addr);
      assert timers.all - old(timers.all) == {t};
    }

    method Turns(s: TimerStep)
      requires timers.Valid() && TimerPossible(s) && (s.CancelTimer? || s.RefreshTimer? || s.ResetTimer?)
      modifies timers, s.t
      ensures timers.Valid() && timers.Onward() && TimerDid(s)
      ensures forall t :: t in old(timers.live) && t !in timers.live ==> s == FreeTimer(t)
    {
      hide TimerManager.Valid, Wrap;
      TimerKnown(s.t);
      timers.Known();
      match s {
        case CancelTimer(t) => var ok := t.Cancel();
        case RefreshTimer(t, now) => var ok := t.Refresh(now);
        case ResetTimer(t, period, fromNow, now) => var ok := t.Reset(period, fromNow, now);
      }
      timers.Known();
    }

    lemma TimerKnown(t: Timer)
      requires timers.Valid() && t in timers.live
      ensures t.manager == timers && t in timers.all
    {
    }

    /** Whether a use of the events meets the demands on its caller. */
    ghost predicate EventPossible(s: EventStep)
      reads this, sched, sched.all, iom
    {
      s.Add? ==> s.caller in sched.all && (s.cb.None? ==> s.caller.state == EXEC && sched.MayWake(s.caller))
    }

    /** What each use of the events does to the registrations and to the queue. */
    twostate predicate EventDid(new s: EventStep)
      reads iom, sched`fibers
    {
      var armed, asked, q := old(iom.armed), old(iom.asked), old(sched.fibers);
      match s
      case Add(g, e, cb, caller, _, refuse) =>
        && sched.fibers == q && iom.woken == old(iom.woken) && iom.deleted == old(iom.deleted)
        && if refuse then iom.armed == armed && iom.serial == old(iom.serial)
           else && iom.serial == old(iom.serial) + 1 && iom.armed == armed[(g, e) := old(iom.serial)]
                && iom.asked == asked[old(iom.serial) :=
                                        if cb.Some? then Task(null, cb, -1) else Task(caller, None, -1)]
      case Delete(g, e, refuse) =>
        && sched.fibers == q && iom.woken == old(iom.woken)
        && iom.armed == (if refuse then armed else armed - {(g, e)})
        && iom.deleted == old(iom.deleted) + if !refuse && (g, e) in armed then {armed[(g, e)]} else {}
      case Cancel(g, e, refuse) =>
        && sched.fibers == q + (if refuse then [] else Asked(armed, asked, g, e)) && iom.deleted == old(iom.deleted)
        && iom.armed == (if refuse then armed else armed - {(g, e)})
      case CancelBoth(g, refuse) =>
        && sched.fibers == q + (if refuse then [] else Asked(armed, asked, g, READ) + Asked(armed, asked, g, WRITE))
        && iom.armed == (if refuse then armed else armed - {(g, READ), (g, WRITE)})
        && iom.deleted == old(iom.deleted)
    }

    /** `ok` is false if an assertion of the I/O manager fails, or if an event is registered from a thread of
        another scheduler or of none. */
    method EventsMove(s: EventStep) returns (ok: bool)
      requires Valid() && EventPossible(s)
      modifies iom, iom.contexts, sched`fibers, sched`issued, sched`parked
      ensures ok ==> Valid()
      ensures ok <==> s.Add? ==> !Armable(s.fd, s.e, old(iom.views)) && (s.refuse || s.mine == sched)
      ensures ok ==> EventDid(s)
    {
      hide Scheduler.Valid, TimerManager.Valid, IOManager.Valid, FiberSemaphore.Valid, DoIo.Valid, IOManager.Onward;
      hide Rest, Share, EventDid;
      CallsHold();
      ok := Happen(s);
      if ok {
        SemaphoresBeside(iom);
        CallsBeside(this);
      }
    }

    method Happen(s: EventStep) returns (ok: bool)
      requires iom.Valid() && iom.sched == sched && EventPossible(s)
      modifies iom, iom.contexts, sched`fibers, sched`issued, sched`parked
      ensures ok <==> s.Add? ==> !Armable(s.fd, s.e, old(iom.views)) && (s.refuse || s.mine == sched)
      ensures ok ==> EventDid(s)
      ensures ok ==> iom.Valid() && sched.Valid() && iom.Onward()
      ensures Rest(sched.parked, iom) == old(Rest(sched.parked, iom))
    {
      hide Scheduler.Valid, IOManager.Valid, EventDid, IOManager.Onward, Rest, Share, EventPossible;
      ok := true;
      match s {
        case Add(_, _, _, _, _, _) => ok := Registers(s);
        case Delete(_, _, _) => Unregisters(s);
        case Cancel(_, _, _) => Cancels(s);
        case CancelBoth(_, _) => Cancels(s);
      }
    }

    method Registers(s: EventStep) returns (ok: bool)
      requires iom.Valid() && iom.sched == sched && EventPossible(s) && s.Add?
      modifies iom, iom.contexts, sched`fibers, sched`issued, sched`parked
      ensures ok <==> s.Add? ==> !Armable(s.fd, s.e, old(iom.views)) && (s.refuse || s.mine == sched)
      ensures ok ==> EventDid(s)
      ensures ok ==> iom.Valid() && sched.Valid() && iom.Onward()
      ensures Rest(sched.parked, iom) == old(Rest(sched.parked, iom))
    {
      hide Scheduler.Valid, Scheduler.MayWake, IOManager.Valid, View.With, ViewAt, Rest, Share, Armable;
      iom.NumbersBelow();
      var rt := iom.AddEvent(s.fd, s.e, s.cb, s.caller, s.mine, s.refuse);
      ok := rt != Aborted && (rt != Added || s.mine == sched);
      if ok {
        iom.Underlying();
      }
    }

    method Unregisters(s: EventStep)
      requires iom.Valid() && iom.sched == sched && s.Delete?
      modifies iom, iom.contexts, sched`fibers, sched`issued, sched`parked
      ensures EventDid(s) && iom.Valid() && sched.Valid() && iom.Onward()
      ensures Rest(sched.parked, iom) == old(Rest(sched.parked, iom))
    {
      hide Scheduler.Valid, Scheduler.MayWake, IOManager.Valid, View.With, Rest, Share, Registration;
      iom.ArmedNow(s.fd, s.e);
      var r := iom.DelEvent(s.fd, s.e, s.refuse);
      iom.Underlying();
    }

    method Cancels(s: EventStep)
      requires iom.Valid() && iom.sched == sched && (s.Cancel? || s.CancelBoth?)
      modifies iom, iom.contexts, sched`fibers, sched`issued, sched`parked
      ensures EventDid(s) && iom.Valid() && sched.Valid() && iom.Onward()
      ensures Rest(sched.parked, iom) == old(Rest(sched.parked, iom))
    {
      hide Scheduler.Valid, Scheduler.MayWake, IOManager.Valid, View.With, Rest, Share, Registration, Cleared, Pairs;
      hide Numbers, HowMany, WakeUps;
      var r;
      if s.Cancel? {
        iom.ArmedNow(s.fd, s.e);
        r := iom.CancelEvent(s.fd, s.e, s.refuse);
      } else {
        r := iom.CancelAll(s.fd, s.refuse);
      }
      iom.Underlying();
    }

    // ----- the idle loop of one worker, between whose steps all others may move -----

    /** The top of the loop: the stopping test does not see what other workers have collected. */
    method IdleCheck(w: nat, now: U64) returns (stop: bool)
      requires Valid() && IdlesFree(w)
      modifies timers`tickled, timers`seen, timers`hooks, timers`clock
      modifies timers`sane, sched`workers, sched`idle, sched.idlers
      ensures Valid()
      ensures stop ==> iom.armed == map[] && sched.issued == sched.consumed
      ensures sched.workers == if stop then old(sched.workers)[w := old(sched.workers)[w].(phase := Scanning)]
                               else old(sched.workers)
    {
      hide Scheduler.Valid, TimerManager.Valid, IOManager.Valid, FiberSemaphore.Valid, DoIo.Valid;
      hide TimerManager.Onward, IOManager.Onward, Rest, Share;
      CallsHold();
      var timeout, wait;
      stop, timeout, wait := iom.IdleCheck(w, now);
      iom.Underlying();
      timers.Fewer();
      iom.Fewer();
      SemaphoresBeside(this);
      CallsBeside(this);
    }

    /** listExpiredCb after the wait, up to the release of its first lock. */
    method IdleLook(w: nat, now: U64)
      requires Valid() && IdlesFree(w)
      modifies this`looked
      ensures Valid() && looked == if timers.timers == [] then old(looked) else old(looked)[w := now]
    {
      hide Scheduler.Valid, TimerManager.Valid, IOManager.Valid, FiberSemaphore.Valid, DoIo.Valid;
      if timers.timers != [] {
        looked := looked[w := now];
      }
    }

    /** Its second lock. Another worker may have emptied the set in between: then `ok` is false, as *begin()
        is taken of an empty set, unless the clock is thought to have rolled over. */
    method IdleCollect(w: nat, probe: nat) returns (ok: bool)
      requires Valid() && w in looked
      modifies this`looked, this`hands, timers`timers, timers`previousTime, timers`clock, timers`sane, timers.all
      ensures Valid() && looked == old(looked) - {w}
      ensures ok <==> old(timers.timers) != [] || RolledOver(old(looked)[w], old(timers.previousTime))
      ensures if w in hands then hands == old(hands)[w := hands[w]] && hands[w] != [] else hands == old(hands)
      ensures w in hands ==> |hands[w]| <= |old(timers.timers)|
      ensures w in hands ==> forall i :: 0 <= i < |hands[w]| ==> hands[w][i] == old(timers.timers[i].cb)
      ensures !RolledOver(old(looked)[w], old(timers.previousTime)) ==>
                forall i :: 0 <= i < |old(timers.timers)| ==>
                  (w in hands && i < |hands[w]| <==> old(timers.timers[i].next) <= old(looked)[w])
    {
      hide Scheduler.Valid, TimerManager.Valid, IOManager.Valid, FiberSemaphore.Valid, DoIo.Valid;
      hide RolledOver, TimerManager.Onward, IOManager.Onward, Rest, Share, HandsIdle, DoIo.Held;
      CallsHold();
      var cbs;
      ok, cbs := Expired(looked[w], probe);
      Hold(w, cbs);
      iom.Fewer();
      SemaphoresBeside(this);
      CallsBeside(this);
    }

    /** The vector of functions, now local to the worker. */
    method Hold(w: nat, cbs: seq<Option<Callback>>)
      requires HandsIdle() && w in looked
      modifies this`looked, this`hands
      ensures HandsIdle() && looked == old(looked) - {w}
      ensures hands == if cbs == [] then old(hands) else old(hands)[w := cbs]
      ensures w in hands <==> cbs != []
    {
      looked := looked - {w};
      if cbs != [] {
        hands := hands[w := cbs];
      }
    }

    method Expired(now: U64, probe: nat) returns (ok: bool, cbs: seq<Option<Callback>>)
      requires timers.Valid()
      modifies timers`timers, timers`previousTime, timers`clock, timers`sane, timers.all
      ensures timers.Valid() && timers.Onward()
      ensures ok <==> old(timers.timers) != [] || RolledOver(now, old(timers.previousTime))
      ensures |cbs| <= |old(timers.timers)| && forall i :: 0 <= i < |cbs| ==> cbs[i] == old(timers.timers[i].cb)
      ensures !RolledOver(now, old(timers.previousTime)) ==>
                forall i :: 0 <= i < |old(timers.timers)| ==> (i < |cbs| <==> old(timers.timers[i].next) <= now)
    {
      hide TimerManager.Valid, RolledOver, Wrap;
      ok, cbs := timers.Collect(now, probe);
    }

    /** schedule(cbs.begin(), cbs.end()). */
    method IdleQueue(w: nat)
      requires Valid() && w in hands
      modifies this`hands, sched`fibers, sched`issued
      ensures Valid() && hands == old(hands) - {w}
      ensures sched.fibers == old(sched.fibers) + CallbackTasks(old(hands)[w])
    {
      hide Scheduler.Valid, TimerManager.Valid, IOManager.Valid, FiberSemaphore.Valid, DoIo.Valid;
      hide TimerManager.Onward, CallbackTasks, IOManager.Onward, Rest, Share;
      CallsHold();
      var need := sched.ScheduleBatch(hands[w]);
      hands := hands - {w};
      iom.Beside();
      timers.Fewer();
      iom.Fewer();
      SemaphoresBeside(this);
      CallsBeside(this);
    }

    /** One entry of what epoll_wait reported, whatever has happened since the wait. `ok` is false if the
        assertion in triggerEvent fails. */
    method IdleReport(w: nat, fd: nat, reported: set<Event>, broken: bool, refuse: bool) returns (ok: bool)
      requires Valid() && IdlesFree(w) && fd < |iom.contexts|
      modifies iom, iom.contexts, sched`fibers, sched`issued, sched`parked
      ensures ok ==> Valid()
      ensures ok <==> Sound(old(iom.views), Ready(fd, reported, broken, refuse))
      ensures ok ==> sched.fibers == old(sched.fibers) + Wakes(old(iom.views), Ready(fd, reported, broken, refuse))
      ensures ok ==> Settled(old(iom.armed), [Ready(fd, reported, broken, refuse)], iom.armed, iom.woken, iom.asked,
                             sched.fibers[|old(sched.fibers)|..])
    {
      hide Scheduler.Valid, TimerManager.Valid, IOManager.Valid, FiberSemaphore.Valid, DoIo.Valid;
      hide TimerManager.Onward, Wakes, Sound, After, Real, Pairs, Numbers, IOManager.Onward, Rest, Share;
      CallsHold();
      iom.Underlying();
      ReportMeans(iom.views, Ready(fd, reported, broken, refuse));
      ok := iom.HandleReady(fd, reported, broken, refuse);
      if ok {
        timers.Fewer();
        iom.Fewer();
        iom.Underlying();
        SemaphoresBeside(iom);
        CallsBeside(this);
      }
    }

    method NewSemaphore(initial: nat) returns (s: FiberSemaphore)
      requires Valid()
      modifies this`semaphores
      ensures Valid() && fresh(s) && semaphores == old(semaphores) + {s} && s.concurrency == initial
    {
      hide Scheduler.Valid, TimerManager.Valid, IOManager.Valid, FiberSemaphore.Valid, DoIo.Valid;
      s := new FiberSemaphore(sched, initial);
      semaphores := semaphores + {s};
    }

    /** What each operation on a semaphore does to it and to the queue. */
    twostate predicate SemaphoreDid(s: FiberSemaphore, new step: SemaphoreStep)
      reads s, sched`fibers
    {
      var free, line, q := old(s.concurrency), old(s.waiters), old(sched.fibers);
      match step
      case TryWait =>
        s.waiters == line && sched.fibers == q && s.concurrency == if free > 0 then free - 1 else 0
      case Wait(caller) =>
        && sched.fibers == q && s.concurrency == (if free > 0 then free - 1 else 0)
        && s.waiters == if free > 0 then line else line + [caller]
      case Notify =>
        if line == [] then s.waiters == [] && s.concurrency == free + 1 && sched.fibers == q
        else s.waiters == line[1..] && s.concurrency == free && sched.fibers == q + [Task(line[0], None, -1)]
    }

    method SemaphoreMoves(s: FiberSemaphore, step: SemaphoreStep)
      requires Valid() && s in semaphores
      requires step.Wait? ==> step.caller in sched.all && step.caller.state == EXEC && sched.MayWake(step.caller)
      modifies s, sched`fibers, sched`issued, sched`parked
      ensures Valid() && SemaphoreDid(s, step)
    {
      hide Scheduler.Valid, TimerManager.Valid, IOManager.Valid, FiberSemaphore.Valid, DoIo.Valid, Scheduler.MayWake;
      hide TimerManager.Onward, IOManager.Onward, Rest, Share;
      CallsHold();
      match step {
        case TryWait => var ok := s.TryWait();
        case Wait(caller) => var hold := s.Wait(caller);
        case Notify => s.Notify();
      }
      s.Underlying();
      ManagerBeside(s);
      timers.Fewer();
      iom.Fewer();
      SemaphoresBeside(s);
      CallsBeside(this);
    }

    twostate lemma ManagerBeside(moved: FiberSemaphore)
      requires old(Valid()) && Bound() && sched.Valid() && unchanged(iom) && unchanged(iom.contexts)
      requires Rest(sched.parked, moved) == old(Rest(sched.parked, moved))
      ensures iom.Valid()
    {
      hide Scheduler.Valid, TimerManager.Valid, IOManager.Valid, FiberSemaphore.Valid, DoIo.Valid, Rest, Share;
      ShareOfOther(old(sched.parked), sched.parked, moved, iom);
      iom.Beside();
    }

    method NewCall(fd: nat, event: Event, fiber: Fiber, timeout: Option<U64>) returns (c: DoIo)
      requires Valid() && fiber in sched.all
      modifies this`calls
      ensures Valid() && fresh(c) && calls == old(calls) + {c}
    {
      hide Scheduler.Valid, TimerManager.Valid, IOManager.Valid, FiberSemaphore.Valid, DoIo.Valid;
      c := new DoIo(iom, timers, fd, event, fiber, timeout);
      calls := calls + {c};
    }

    ghost predicate CallPossible(c: DoIo, s: CallStep)
      reads this, c, c.fiber, sched, timers, timers.all
    {
      match s
      case Try(_, _, _, addr) => c.progress.Trying? && forall t :: t in timers.live ==> t.addr != addr
      case Enlist(_) => c.progress.Timing? && c.fiber.state == EXEC && sched.MayWake(c.fiber)
      case Resume => c.progress.Waiting? && sched.MayWake(c.fiber)
      case Enter(t) => t in c.made && t in timers.all && t.delivered >= 1
      case Mark(t) => t in c.inside
      case CancelMarked(_) => c.cancelling
    }

    /** What each step of a call does to it, to its timer and to the queue. */
    twostate predicate CallDid(c: DoIo, s: CallStep)
      reads c, timers, timers.all, iom, sched`fibers, if s.Try? && c.timer != null then {c.timer} else {}
    {
      match s
      case Try(Final(n), _, _, _) => c.progress == Returned(Value(n)) && timers.timers == old(timers.timers)
      case Try(Again, cb, at, addr) =>
        && c.progress == Timing && (c.timer == null <==> c.timeout.None?)
        && (c.timer == null ==> timers.timers == old(timers.timers))
        && (c.timer != null ==>
              && c.timer.next == Wrap(at + c.timeout.value) && c.timer.cb == Some(cb) && c.timer.addr == addr
              && SetOf(timers.timers) == SetOf(old(timers.timers)) + {c.timer})
      case Enlist(refuse) =>
        && c.progress == (if refuse then Returned(NotAdded) else Waiting)
        && iom.armed == (if refuse then old(iom.armed) else old(iom.armed)[(c.fd, c.event) := old(iom.serial)])
        && SetOf(timers.timers) == SetOf(old(timers.timers)) - if refuse then TheTimer(old(c.timer)) else {}
      case Resume =>
        && c.progress == (if c.cancelled then Returned(TimedOut) else Trying)
        && SetOf(timers.timers) == SetOf(old(timers.timers)) - TheTimer(old(c.timer))
      case Enter(t) =>
        && c.inside == (if c.progress.Returned? then old(c.inside) else old(c.inside) + {t})
        && c.progress == old(c.progress) && c.cancelled == old(c.cancelled)
      case Mark(t) =>
        && c.inside == old(c.inside) - {t} && c.cancelled && c.progress == old(c.progress)
        && c.cancelling == (old(c.cancelling) || !old(c.cancelled))
      case CancelMarked(refuse) =>
        && !c.cancelling && c.progress == old(c.progress) && c.cancelled == old(c.cancelled)
        && iom.armed == (if refuse then old(iom.armed) else old(iom.armed) - {(c.fd, c.event)})
        && sched.fibers == old(sched.fibers)
                           + if refuse then [] else Asked(old(iom.armed), old(iom.asked), c.fd, c.event)
    }

    /** `ok` is false if the assertion in addEvent fails. */
    method CallMoves(c: DoIo, s: CallStep) returns (ok: bool)
      requires Valid() && c in calls && CallPossible(c, s)
      modifies c, timers, timers.all, iom, iom.contexts, sched`fibers, sched`issued, sched`parked
      ensures ok ==> Valid()
      ensures ok <==> s.Enlist? ==> !Armable(c.fd, c.event, old(iom.views))
      ensures ok ==> CallDid(c, s)
    {
      hide Scheduler.Valid, TimerManager.Valid, IOManager.Valid, FiberSemaphore.Valid, DoIo.Valid, Scheduler.MayWake;
      hide TimerManager.Onward, IOManager.Onward, Rest, Share, CallDid, Armable;
      CallsHold();
      ok := Advance(c, s);
      if ok {
        SemaphoresBeside(iom);
        CallsBeside(c);
      }
    }

    method Advance(c: DoIo, s: CallStep) returns (ok: bool)
      requires c.iom == iom && c.timers == timers && iom.sched == sched && c.Valid() && CallPossible(c, s)
      modifies c, timers, timers.all, iom, iom.contexts, sched`fibers, sched`issued, sched`parked
      ensures ok ==> c.Valid() && timers.Onward() && iom.Onward() && CallDid(c, s)
      ensures ok <==> s.Enlist? ==> !Armable(c.fd, c.event, old(iom.views))
      ensures ok ==> sched.Valid() && timers.Valid() && iom.Valid()
      ensures old(timers.live) <= timers.live
      ensures Rest(sched.parked, iom) == old(Rest(sched.parked, iom))
    {
      hide Scheduler.Valid, TimerManager.Valid, IOManager.Valid, DoIo.Valid, DoIo.Held, CallPossible;
      hide TimerManager.Onward, IOManager.Onward, Rest, Share, CallDid, Armable;
      ok := true;
      match s {
        case Try(r, cb, now, addr) => CallTries(c, s);
        case Enlist(refuse) => ok := CallEnlists(c, s);
        case Resume => CallResumes(c, s);
        case Enter(t) => CallEntered(c, s);
        case Mark(t) => CallMarked(c, s);
        case CancelMarked(refuse) => CallCancelled(c, s);
      }
      if ok {
        c.Own();
      }
    }

    method CallTries(c: DoIo, s: CallStep)
      requires c.iom == iom && c.timers == timers && c.Valid() && CallPossible(c, s) && s.Try?
      modifies c, timers
      ensures c.Valid() && timers.Onward() && iom.Onward() && old(timers.live) <= timers.live && CallDid(c, s)
    {
      hide DoIo.Valid, TimerManager.Onward, IOManager.Onward, Wrap;
      c.Try(s.r, s.cb, s.now, s.addr);
      iom.Fewer();
    }

    method CallEnlists(c: DoIo, s: CallStep) returns (ok: bool)
      requires c.iom == iom && c.timers == timers && iom.sched == sched && c.Valid() && CallPossible(c, s) && s.Enlist?
      modifies c, timers`timers, timers.all, iom, iom.contexts, sched`parked
      ensures ok ==> c.Valid() && timers.Onward() && iom.Onward() && CallDid(c, s)
      ensures ok <==> !Armable(c.fd, c.event, old(iom.views))
      ensures Rest(sched.parked, iom) == old(Rest(sched.parked, iom))
    {
      hide DoIo.Valid, Scheduler.MayWake, TimerManager.Onward, IOManager.Onward, View.With, ViewAt, Rest, DoIo.Blocked;
      hide Scheduler.Valid, IOManager.Valid, TimerManager.Valid, DoIo.Held, Armable;
      c.Own();
      ok := c.Enlist(s.refuse);
    }

    method CallResumes(c: DoIo, s: CallStep)
      requires c.iom == iom && c.timers == timers && iom.sched == sched && c.Valid() && CallPossible(c, s) && s.Resume?
      modifies c, timers`timers, timers.all
      ensures c.Valid() && timers.Onward() && iom.Onward() && CallDid(c, s)
    {
      hide DoIo.Valid, Scheduler.MayWake, Scheduler.Valid, IOManager.Valid, TimerManager.Valid, TimerManager.Onward;
      hide IOManager.Onward;
      hide DoIo.Early, DoIo.Held;
      c.Own();
      c.Resume();
      iom.Fewer();
    }

    method CallEntered(c: DoIo, s: CallStep)
      requires c.iom == iom && c.timers == timers && c.Valid() && CallPossible(c, s) && s.Enter?
      modifies c
      ensures c.Valid() && timers.Onward() && iom.Onward() && CallDid(c, s)
    {
      hide DoIo.Valid, TimerManager.Onward, IOManager.Onward;
      var alive := c.Enter(s.t);
      timers.Fewer();
      iom.Fewer();
    }

    method CallMarked(c: DoIo, s: CallStep)
      requires c.iom == iom && c.timers == timers && c.Valid() && CallPossible(c, s) && s.Mark?
      modifies c
      ensures c.Valid() && timers.Onward() && iom.Onward() && CallDid(c, s)
    {
      hide DoIo.Valid, TimerManager.Onward, IOManager.Onward;
      var go := c.Mark(s.t);
      timers.Fewer();
      iom.Fewer();
    }

    method CallCancelled(c: DoIo, s: CallStep)
      requires c.iom == iom && c.timers == timers && iom.sched == sched && c.Valid() && CallPossible(c, s)
               && s.CancelMarked?
      modifies c, iom, iom.contexts, sched`fibers, sched`issued, sched`parked
      ensures c.Valid() && timers.Onward() && iom.Onward() && CallDid(c, s)
      ensures Rest(sched.parked, iom) == old(Rest(sched.parked, iom))
    {
      hide DoIo.Valid, TimerManager.Onward, IOManager.Onward, DoIo.Blocked, View.With, Rest;
      c.CancelMarked(s.refuse);
      timers.Fewer();
    }
  }
}
