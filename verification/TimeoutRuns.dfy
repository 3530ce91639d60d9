/** Runs of one hooked call, from the constructors on, in which a timeout function runs late. The call is
    made by the only fiber, on the only worker that runs fibers; the timers are another worker's. */
module TimeoutRuns {
  import opened Prelude
  import opened Fibers
  import opened Schedulers
  import opened Timers
  import opened IOManagers
  import opened HookedIo

  /** The worker between two segments, or in a segment of the call's fiber. */
  predicate Free(s: Scheduler)
    reads s`workers
  {
    |s.workers| == 1 && s.workers[0] == Worker(0, Scanning, null)
  }

  ghost predicate Executing(c: DoIo)
    reads c.iom.sched`workers, c.iom.sched`fibers, c.fiber`state
  {
    && |c.iom.sched.workers| == 1 && c.iom.sched.workers[0] == Worker(0, Running(c.fiber, OfFiber(c.fiber)), null)
    && c.iom.sched.fibers == [] && c.fiber.state == EXEC
  }

  /** A read on descriptor 0, which nobody else uses, with a timeout of 100 ms. */
  ghost predicate Setting(c: DoIo)
    reads c.iom
  {
    c.fd == 0 && c.event == READ && c.timeout == Some(100) && |c.iom.contexts| == |c.iom.views| >= 1
  }

  /** The worker takes the only task of the queue and runs its fiber. */
  method TakeOnly(s: Scheduler, f: Fiber)
    requires s.Valid() && Free(s) && s.fibers == [Task(f, None, -1)] && f.state in {INIT, HOLD}
    modifies s`fibers, s`workers, s`active, f`state
    ensures s.Valid() && |s.workers| == 1 && s.workers[0] == Worker(0, Running(f, OfFiber(f)), null)
    ensures s.fibers == [] && f.state == EXEC && s.MayWake(f)
  {
    hide Scheduler.Valid, Scheduler.MayWake;
    var task := s.fibers[0];
    var tickle, at := s.Dequeue(0);
    assert s.Runnable(task, 0);
    s.StartFiber(0);
  }

  /** One worker in the first segment of one fiber. */
  method BeginFiber() returns (sched: Scheduler, f: Fiber)
    ensures fresh(sched) && fresh(f) && fresh(sched.idlers) && sched.all == {f} && sched.Valid()
    ensures |sched.workers| == 1 && sched.workers[0] == Worker(0, Running(f, OfFiber(f)), null)
    ensures sched.fibers == [] && f.state == EXEC && sched.MayWake(f)
  {
    hide Scheduler.Valid, Scheduler.MayWake;
    sched := new Scheduler([0]);
    f := sched.Create(None);
    var need := sched.Schedule(f, -1);
    TakeOnly(sched, f);
  }

  method Begin() returns (c: DoIo)
    ensures fresh(c) && fresh(c.iom) && fresh(c.iom.contexts) && fresh(c.iom.sched) && fresh(c.timers) && fresh(c.fiber)
    ensures c.Valid() && Setting(c) && Executing(c) && c.iom.sched.MayWake(c.fiber) && c.progress.Trying?
            && !c.cancelled && !c.cancelling && c.made == {}
    ensures c.iom.views[0].events == {} && c.timers.timers == [] && c.timers.live == {} && c.timers.all == {}
            && c.timers.previousTime == 0
  {
    hide Scheduler.Valid, IOManager.Valid, TimerManager.Valid, Scheduler.MayWake, DoIo.Valid;
    var sched, f := BeginFiber();
    var timers := new TimerManager(0);
    var iom := new IOManager(sched, timers);
    c := new DoIo(iom, timers, 0, READ, f, Some(100));
  }

  /** The yield after addEvent. */
  method Yield(c: DoIo)
    requires c.Valid() && Executing(c)
    modifies c.iom.sched, c.fiber
    ensures c.Valid() && Free(c.iom.sched) && c.iom.sched.fibers == [] && c.fiber.state == HOLD
    ensures c.iom.sched.all == old(c.iom.sched.all)
  {
    hide Scheduler.Valid, IOManager.Valid, TimerManager.Valid, Share;
    c.iom.Underlying();
    c.iom.sched.EndSegment(0, YieldHold);
    c.iom.Beside();
    c.OthersKeep();
  }

  /** The call's fiber has been woken and runs again. */
  method Continue(c: DoIo)
    requires c.Valid() && Free(c.iom.sched) && c.iom.sched.fibers == [Task(c.fiber, None, -1)] && c.fiber.state == HOLD
    modifies c.iom.sched, c.fiber
    ensures c.Valid() && Executing(c) && c.iom.sched.MayWake(c.fiber)
  {
    hide Scheduler.Valid, IOManager.Valid, TimerManager.Valid, Share;
    c.iom.Underlying();
    TakeOnly(c.iom.sched, c.fiber);
    c.iom.Beside();
    c.OthersKeep();
  }

  /** The descriptor is reported readable. */
  method Ready(c: DoIo)
    requires c.Valid() && c.Blocked() && Setting(c) && c.iom.views[0].events == {READ} && c.iom.sched.fibers == []
    modifies c.iom, c.iom.contexts, c.iom.sched`fibers, c.iom.sched`issued, c.iom.sched`parked
    ensures c.Valid() && Setting(c) && c.iom.contexts == old(c.iom.contexts) && c.iom.views[0].events == {}
    ensures c.iom.sched.fibers == [Task(c.fiber, None, -1)]
  {
    hide Scheduler.Valid, IOManager.Valid, TimerManager.Valid, Share, Rest, Settled, Pairs, Numbers, HowMany, Asked;
    hide DoIo.Timed, DoIo.Held;
    c.Own();
    c.Holding();
    var ok := c.iom.HandleReady(0, {READ}, false, false);
    c.OthersKeep();
  }

  /** The idle loop finds the call's timer t due. */
  method Due(c: DoIo, t: Timer, now: U64)
    requires c.Valid() && t in c.made && t in c.timers.timers && t.next <= now && c.timers.previousTime <= now
    modifies c.timers, c.timers.all
    ensures c.Valid() && t.delivered == old(t.delivered) + 1 && t !in c.timers.timers
            && c.timers.all == old(c.timers.all) && c.timers.live == old(c.timers.live)
    ensures c.timers.previousTime == now && forall s :: s in c.timers.timers ==> s in old(c.timers.timers)
    ensures forall s :: s in c.timers.all && s !in old(c.timers.timers) ==> unchanged(s)
  {
    hide Scheduler.Valid, IOManager.Valid, TimerManager.Valid, DoIo.Noted, Wrap;
    ghost var i :| 0 <= i < |c.timers.timers| && c.timers.timers[i] == t;
    c.timers.Known();
    var cbs := c.timers.ListExpired(now, 0);
    c.timers.Known();
    assert i < |cbs| && t == old(c.timers.timers)[..|cbs|][i];
    c.OthersKeep();
  }

  /** addEvent, with nothing else armed on the descriptor. */
  method Listen(c: DoIo)
    requires c.Valid() && Setting(c) && c.progress.Timing? && c.fiber.state == EXEC && c.iom.sched.MayWake(c.fiber)
    requires c.iom.views[0].events == {}
    modifies c`progress, c`registrations, c.timers`timers, if c.timer == null then {} else {c.timer}
    modifies c.iom, c.iom.contexts, c.iom.sched`parked
    ensures c.Valid() && Setting(c) && c.Blocked() && c.iom.contexts == old(c.iom.contexts)
            && c.iom.views[0].events == {READ}
    ensures c.timers.timers == old(c.timers.timers) && (old(c.timer) != null ==> unchanged(old(c.timer)))
    ensures c.iom.Onward()
  {
    hide DoIo.Valid, Scheduler.Valid, Scheduler.MayWake, IOManager.Valid, TimerManager.Valid, View.With, Rest;
    hide TimerManager.Onward, IOManager.Onward;
    var ok := c.Enlist(false);
    c.Own();
  }

  /** One round up to the hold, at time `now`, with the timer at address `addr`. */
  method Round(c: DoIo, cb: Callback, now: U64, addr: nat)
    requires c.Valid() && Setting(c) && Executing(c) && c.iom.sched.MayWake(c.fiber) && c.progress.Trying?
    requires c.iom.views[0].events == {} && now < 1000 && forall t :: t in c.timers.live ==> t.addr != addr
    modifies c, c.timers, c.iom, c.iom.contexts, c.iom.sched`parked
    ensures c.Valid() && Setting(c) && Executing(c) && c.Blocked() && c.iom.contexts == old(c.iom.contexts)
    ensures c.iom.views[0].events == {READ} && c.cancelled == old(c.cancelled) && c.cancelling == old(c.cancelling)
            && c.fired == old(c.fired)
    ensures c.timer != null && fresh(c.timer) && c.timer.delivered == 0 && c.timer.next == now + 100
            && c.timer.addr == addr
    ensures c.made == old(c.made) + {c.timer} && c.timers.all == old(c.timers.all) + {c.timer}
    ensures c.timers.live == old(c.timers.live) + {c.timer} && c.timers.previousTime == old(c.timers.previousTime)
    ensures forall t :: t in c.timers.timers <==> t in old(c.timers.timers) || t == c.timer
    ensures c.timers.Onward() && c.iom.Onward()
  {
    hide DoIo.Valid, Scheduler.MayWake, Wrap;
    c.Try(Again, cb, now, addr);
    WrapSmall(now + 100);
    Listen(c);
  }

  /** A first round that ends by readiness after its timer, called `first`, has been delivered; the timer's
      function has not run yet. */
  method FirstRound(cb: Callback) returns (c: DoIo, first: Timer)
    ensures fresh(c) && fresh(c.iom) && fresh(c.iom.contexts) && fresh(c.iom.sched) && fresh(c.timers) && fresh(c.fiber)
    ensures c.Valid() && Setting(c) && Executing(c) && c.iom.sched.MayWake(c.fiber) && c.progress.Trying?
    ensures !c.cancelled && !c.cancelling && c.iom.views[0].events == {}
    ensures c.made == c.timers.all == c.timers.live == {first} && fresh(first) && first.delivered == 1
            && first.addr == 1
    ensures c.timers.previousTime == 100
  {
    hide DoIo.Valid, Scheduler.MayWake, Scheduler.Valid, IOManager.Valid, TimerManager.Valid, Rest;
    hide TimerManager.Onward, IOManager.Onward, DoIo.Held, View.With;
    c := Begin();
    Round(c, cb, 0, 1);
    first := c.timer;
    Yield(c);
    Ready(c);
    Due(c, first, 100);
    Continue(c);
    c.Resume();
  }

  /** The late function runs in the second round's wait and ends it, with ETIMEDOUT, before its time. */
  method EndsEarly(cb: Callback) returns (c: DoIo)
    ensures c.Valid() && c.Early()
  {
    hide DoIo.Valid, Scheduler.MayWake, Scheduler.Valid, IOManager.Valid, TimerManager.Valid, Rest;
    hide TimerManager.Onward, IOManager.Onward, DoIo.Held, View.With;
    var first;
    c, first := FirstRound(cb);
    Round(c, cb, 100, 2);
    Yield(c);
    c.FireTimeout(first, false);
    Continue(c);
    c.Resume();
  }

  /** The late function runs between the rounds, and the second round waits. */
  method MarkedBetween(cb: Callback) returns (c: DoIo, t: Timer)
    ensures fresh(c) && fresh(c.iom) && fresh(c.iom.contexts) && fresh(c.iom.sched) && fresh(c.timers) && fresh(c.fiber)
    ensures c.Valid() && c.Blocked() && c.Deaf() && fresh(t) && t == c.timer && t in c.made && t in c.timers.timers
    ensures t.delivered == 0 && t.next == 200 && c.timers.previousTime == 100 && c.timers.all >= {t}
            && forall u :: u in c.timers.all ==> fresh(u)
  {
    hide DoIo.Valid, Scheduler.MayWake, Scheduler.Valid, IOManager.Valid, TimerManager.Valid, Rest;
    hide TimerManager.Onward, IOManager.Onward, DoIo.Held, View.With;
    var first;
    c, first := FirstRound(cb);
    c.FireTimeout(first, false);
    Round(c, cb, 100, 2);
    t := c.timer;
    Yield(c);
  }

  /** That wait can no longer be ended by any timeout function, although its own timer is delivered. */
  method WaitsForever(cb: Callback, refuse: bool) returns (c: DoIo)
    ensures c.Valid() && c.Blocked() && c.Deaf() && c.timer != null && c.timer.delivered == 1
            && c.timer !in c.timers.timers
  {
    hide DoIo.Valid, Scheduler.MayWake, Scheduler.Valid, IOManager.Valid, TimerManager.Valid, Rest;
    hide TimerManager.Onward, IOManager.Onward, DoIo.Held, View.With;
    var t;
    c, t := MarkedBetween(cb);
    Due(c, t, 200);
    c.FireTimeout(t, refuse);
  }

  /** In a single round: the timer is delivered and its function runs before addEvent. */
  method MarkedBeforeAdding(cb: Callback, refuse: bool) returns (c: DoIo)
    ensures fresh(c) && fresh(c.iom) && fresh(c.iom.contexts) && fresh(c.iom.sched) && fresh(c.timers) && fresh(c.fiber)
    ensures c.Valid() && Setting(c) && Executing(c) && c.iom.sched.MayWake(c.fiber) && c.progress.Timing?
    ensures c.Deaf() && c.iom.views[0].events == {} && c.timer != null && fresh(c.timer) && c.fired == c.timer
            && c.timer !in c.timers.timers
  {
    hide DoIo.Valid, Scheduler.MayWake, Scheduler.Valid, IOManager.Valid, TimerManager.Valid, Rest, Wrap;
    hide TimerManager.Onward, IOManager.Onward, DoIo.Held, View.With;
    c := Begin();
    c.Try(Again, cb, 0, 1);
    WrapSmall(100);
    Due(c, c.timer, 100);
    c.FireTimeout(c.timer, refuse);
  }

  /** The wait that follows is deaf to its own timeout. */
  method MissesOwnTimeout(cb: Callback, refuse: bool) returns (c: DoIo)
    ensures c.Valid() && c.Blocked() && c.Deaf() && c.fired == c.timer && c.timer != null && c.timer !in c.timers.timers
  {
    hide DoIo.Valid, Scheduler.MayWake, Scheduler.Valid, IOManager.Valid, TimerManager.Valid, Rest;
    hide TimerManager.Onward, IOManager.Onward, DoIo.Held, View.With;
    c := MarkedBeforeAdding(cb, refuse);
    Listen(c);
    Yield(c);
  }

  /** The timer t of the first round is delivered during the wait, and its function has locked the shared
      state. */
  method EntersInWait(cb: Callback) returns (c: DoIo, t: Timer)
    ensures fresh(c) && fresh(c.iom) && fresh(c.iom.contexts) && fresh(c.iom.sched) && fresh(c.timers) && fresh(c.fiber)
    ensures c.Valid() && Setting(c) && Free(c.iom.sched) && c.iom.sched.fibers == [] && c.fiber.state == HOLD
    ensures c.Blocked() && c.iom.views[0].events == {READ} && !c.cancelled && !c.cancelling && t in c.inside
    ensures fresh(t) && t == c.timer && t.addr == 1 && c.timers.live == {t}
  {
    hide DoIo.Valid, Scheduler.MayWake, Scheduler.Valid, IOManager.Valid, TimerManager.Valid, Rest;
    hide TimerManager.Onward, IOManager.Onward, DoIo.Held, View.With;
    c := Begin();
    Round(c, cb, 0, 1);
    t := c.timer;
    Yield(c);
    Due(c, t, 100);
    var alive := c.Enter(t);
  }

  /** A call that has ended with ETIMEDOUT although the function that set the mark has still to call
      cancelEvent: the fiber was woken by readiness in between. */
  method ReturnsMarked(cb: Callback) returns (c: DoIo)
    ensures fresh(c) && fresh(c.iom) && fresh(c.iom.contexts) && fresh(c.iom.sched) && fresh(c.timers) && fresh(c.fiber)
    ensures c.Valid() && Setting(c) && Executing(c) && c.iom.sched.MayWake(c.fiber) && c.progress == Returned(TimedOut)
    ensures c.cancelling && c.iom.views[0].events == {} && forall t :: t in c.timers.live ==> t.addr == 1
  {
    hide DoIo.Valid, Scheduler.MayWake, Scheduler.Valid, IOManager.Valid, TimerManager.Valid, Rest;
    hide TimerManager.Onward, IOManager.Onward, DoIo.Held, View.With;
    var t;
    c, t := EntersInWait(cb);
    var go := c.Mark(t);
    Ready(c);
    Continue(c);
    c.Resume();
  }

  /** Another call of the same fiber on the same descriptor, up to its hold. */
  method SecondCall(c: DoIo, cb: Callback) returns (d: DoIo)
    requires c.Valid() && Setting(c) && Executing(c) && c.iom.sched.MayWake(c.fiber) && c.progress.Returned?
    requires c.iom.views[0].events == {} && forall t :: t in c.timers.live ==> t.addr == 1
    modifies c.timers, c.iom, c.iom.contexts, c.iom.sched`parked
    ensures fresh(d) && c.Valid() && d.Valid() && d.iom == c.iom && d.timers == c.timers && d.fd == c.fd
            && d.event == c.event
    ensures d.Blocked() && !d.cancelled && d.timer != null && d.timer.delivered == 0
            && c.iom.contexts == old(c.iom.contexts)
  {
    hide DoIo.Valid, Scheduler.MayWake, Scheduler.Valid, IOManager.Valid, TimerManager.Valid;
    hide TimerManager.Onward, IOManager.Onward, Executing;
    c.Own();
    d := new DoIo(c.iom, c.timers, 0, READ, c.fiber, Some(100));
    Alike(c, d);
    label L:
    Round(d, cb, 100, 2);
    d.Own();
    c.OthersKeep@L();
  }

  lemma Alike(c: DoIo, d: DoIo)
    requires c.iom == d.iom && c.fiber == d.fiber
    ensures Executing(c) == Executing(d)
  {
  }

  /** The cancelEvent then ends the wait of the next call, which has not timed out. */
  method CancelsAnother(cb: Callback) returns (c: DoIo, d: DoIo)
    ensures c.progress == Returned(TimedOut) && d != c && d.iom == c.iom
    ensures d.progress.Waiting? && !d.Blocked() && !d.cancelled && d.timer != null && d.timer.delivered == 0
  {
    hide DoIo.Valid, Scheduler.MayWake, Rest, TimerManager.Onward, IOManager.Onward, Executing;
    c := ReturnsMarked(cb);
    d := SecondCall(c, cb);
    d.Armed();
    c.CancelMarked(false);
  }

  /** A call that has returned the value 0 while the function of its timer t holds the shared state. */
  method ReturnsEntered(cb: Callback) returns (c: DoIo, t: Timer)
    ensures fresh(c) && fresh(c.iom) && fresh(c.iom.contexts) && fresh(c.iom.sched) && fresh(c.timers) && fresh(c.fiber)
    ensures c.Valid() && Setting(c) && Executing(c) && c.iom.sched.MayWake(c.fiber) && c.progress == Returned(Value(0))
    ensures t in c.inside && !c.cancelled && c.iom.views[0].events == {} && forall u :: u in c.timers.live ==>
              u.addr == 1
  {
    hide DoIo.Valid, Scheduler.MayWake, Scheduler.Valid, IOManager.Valid, TimerManager.Valid, Rest;
    hide TimerManager.Onward, IOManager.Onward, DoIo.Held, View.With;
    c, t := EntersInWait(cb);
    Ready(c);
    Continue(c);
    c.Resume();
    c.Try(Final(0), cb, 100, 2);
  }

  /** That function then marks a call that has ended well, and ends the wait of the next one. */
  method MarksReturned(cb: Callback) returns (c: DoIo, d: DoIo)
    ensures c.progress == Returned(Value(0)) && c.cancelled && d != c && d.iom == c.iom
    ensures d.progress.Waiting? && !d.Blocked() && !d.cancelled && d.timer != null && d.timer.delivered == 0
  {
    hide DoIo.Valid, Scheduler.MayWake, Rest, TimerManager.Onward, IOManager.Onward, Executing;
    var t;
    c, t := ReturnsEntered(cb);
    d := SecondCall(c, cb);
    d.Armed();
    var go := c.Mark(t);
    c.CancelMarked(false);
  }
}
