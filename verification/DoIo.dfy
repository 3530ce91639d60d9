/** The wait, timeout and retry protocol of do_io (hook.cpp) for one hooked call on one descriptor. Each
    method is what the call, or the timeout function it registered, does without giving way; between
    them any other step of the timers, the I/O manager and the scheduler may happen. */
module HookedIo {
  import opened Prelude
  import opened Fibers
  import opened Schedulers
  import opened Timers
  import opened IOManagers

  /** What the original system call returns, after repeating it while interrupted. */
  datatype SysResult = Final(value: int) | Again

  /** How the hooked call ends. */
  datatype IoResult = Value(value: int) | TimedOut | NotAdded

  /** Before the system call, between addConditionTimer and addEvent, on hold, and ended. */
  datatype Progress = Trying | Timing | Waiting | Returned(result: IoResult)

  class DoIo {
    const iom: IOManager
    const timers: TimerManager
    const fd: nat
    const event: Event
    const fiber: Fiber
    const timeout: Option<U64>
    var progress: Progress
    /** timer_info: shared with the timeout functions, alive until the call returns; never reset. */
    var cancelled: bool
    /** This round's timer. */
    var timer: Timer?

    /** The timers and registrations this call has made; the timer whose function set `cancelled`; and
        whether that function has still to call cancelEvent. */
    ghost var made: set<Timer>
    ghost var registrations: set<nat>
    ghost var fired: Timer?
    ghost var cancelling: bool
    /** The timers whose functions have locked the shared state and have not tested the mark yet. */
    ghost var inside: set<Timer>

    /** Of the timers made, only `current` can still be in the set; and the mark that makes the call end
        with ETIMEDOUT was set by the delivered function of one of them. */
    ghost predicate Timed(current: Timer?)
      reads this`timer, this`made, this`cancelled, this`fired, this`cancelling, this`inside
      reads timers`all, timers`live, timers`timers, timers.all`delivered
    {
      && made <= timers.all
      && (forall t :: t in made ==> t.callable && !t.recurring)
      && (forall t :: t in made && t in timers.timers ==> t == current)
      && (current != null ==> current == timer && current in timers.live)
      && (timer != null ==> timer in made)
      && (cancelled ==> fired != null && fired in made && fired.delivered >= 1)
      && (cancelling ==> cancelled)
      && inside <= made && (forall t :: t in inside ==> t.delivered >= 1)
    }

    /** Registrations of this call are for its fiber and its event; if `quiet`, none of them is armed. */
    ghost predicate Noted(quiet: bool)
      reads this`registrations, iom`serial, iom`asked, iom`armed
    {
      && (forall n :: n in registrations ==> n < iom.serial && n in iom.asked && iom.asked[n] == Task(fiber, None, -1))
      && (forall k :: k in iom.armed && iom.armed[k] in registrations ==> k == (fd, event) && !quiet)
    }

    ghost function Current(): Timer?
      reads this`progress, this`timer
    {
      if progress.Timing? || progress.Waiting? then timer else null
    }

    ghost predicate Valid()
      reads this, iom, iom.contexts, iom.sched, iom.sched.all, iom.sched.idlers, timers, timers.timers, timers.all
    {
      iom.Valid() && timers.Valid() && fiber in iom.sched.all && Timed(Current()) && Noted(!progress.Waiting?)
      && (progress == Returned(TimedOut) ==> cancelled)
    }

    /** On hold, and nobody has issued the wake-up yet. */
    ghost predicate Blocked()
      reads this`progress, this`registrations, iom`armed
    {
      progress.Waiting? && (fd, event) in iom.armed && iom.armed[(fd, event)] in registrations
    }

    /** No timeout function, of this round or of an earlier one, will call cancelEvent any more. */
    ghost predicate Deaf()
      reads this`cancelled, this`cancelling
    {
      cancelled && !cancelling
    }

    /** The call has ended with ETIMEDOUT although its last round's timer was not due. */
    ghost predicate Early()
      reads this`progress, this`timer, timers.all`delivered, timers`all
    {
      progress == Returned(TimedOut) && timer != null && timer in timers.all && timer.delivered == 0
    }

    constructor (iom: IOManager, timers: TimerManager, fd: nat, event: Event, fiber: Fiber, timeout: Option<U64>)
      requires iom.Valid() && timers.Valid() && fiber in iom.sched.all
      ensures Valid() && progress == Trying && made == {} && registrations == {} && !cancelled && !cancelling
              && timer == null && inside == {}
      ensures this.iom == iom && this.timers == timers && this.fiber == fiber
      ensures this.fd == fd && this.event == event && this.timeout == timeout
    {
      hide IOManager.Valid, TimerManager.Valid;
      this.iom, this.timers, this.fd, this.event, this.fiber, this.timeout := iom, timers, fd, event, fiber, timeout;
      progress, cancelled, timer := Trying, false, null;
      made, registrations, fired, cancelling, inside := {}, {}, null, false, {};
    }

    /** Valid, taken apart and put together. */
    lemma Parts()
      ensures Valid() <==>
                && iom.Valid() && timers.Valid() && fiber in iom.sched.all && Timed(Current())
                && Noted(!progress.Waiting?)
                && (progress == Returned(TimedOut) ==> cancelled)
    {
      hide IOManager.Valid, TimerManager.Valid, Timed, Noted, Current;
    }

    lemma Own()
      requires Valid()
      ensures iom.Valid() && timers.Valid() && iom.sched.Valid() && (timer != null ==> timer in timers.all) && Held()
      ensures |iom.views| == |iom.contexts| && fiber in iom.sched.all
    {
      hide Scheduler.Valid, TimerManager.Valid, Noted;
    }

    // ----- the steps of others -----

    /** The call holds a handle of its current timer, so nobody frees it. */
    ghost predicate Held()
      reads this`progress, this`timer, timers`live
    {
      Current() != null ==> Current() in timers.live
    }

    /** Whatever the rest of the program does between two steps of the call keeps the call's invariant. */
    twostate lemma OthersKeep()
      requires old(Valid()) && unchanged(this) && timers.Onward() && iom.Onward() && Held()
      requires iom.Valid() && timers.Valid() && fiber in iom.sched.all
      ensures Valid()
    {
      hide TimerManager.Valid, IOManager.Valid;
    }

    // ----- the steps of the call -----

    /** The system call, and when it would block, the conditional timer. */
    method Try(r: SysResult, cb: Callback, now: U64, addr: nat)
      requires Valid() && progress.Trying? && forall t :: t in timers.live ==> t.addr != addr
      modifies this`progress, this`timer, this`made
      modifies timers`timers, timers`tickled, timers`hooks, timers`all, timers`live, timers`clock, timers`sane
      ensures Valid() && timers.Onward() && timers.live >= old(timers.live)
      ensures progress == if r.Final? then Returned(Value(r.value)) else Timing
      ensures r.Final? ==> timers.timers == old(timers.timers) && timers.live == old(timers.live) && timer == old(timer)
      ensures !r.Final? && timeout.None? ==> timer == null && timers.timers == old(timers.timers)
      ensures !r.Final? && timeout.Some? ==>
                && timer != null && fresh(timer) && timer.delivered == 0 && timer.next == Wrap(now + timeout.value)
                && timer.addr == addr && timer.cb == Some(cb) && !timer.recurring
                && timers.live == old(timers.live) + {timer} && timers.all == old(timers.all) + {timer}
                && forall t :: t in timers.timers <==> t in old(timers.timers) || t == timer
      ensures timers.previousTime == old(timers.previousTime)
      ensures made == if r.Final? || timer == null then old(made) else old(made) + {timer}
    {
      hide Valid, IOManager.Valid, TimerManager.Valid, TimerManager.Onward, Timed, Noted, Wrap;
      Parts();
      timers.Fewer();
      if r.Final? {
        progress := Returned(Value(r.value));
      } else {
        SetTimer(cb, now, addr);
        progress := Timing;
      }
      Parts();
    }

    /** The conditional timer, if the call has a timeout. */
    method SetTimer(cb: Callback, now: U64, addr: nat)
      requires iom.Valid() && timers.Valid() && Timed(null) && Noted(true) && forall t :: t in timers.live ==>
                t.addr != addr
      modifies this`timer, this`made
      modifies timers`timers, timers`tickled, timers`hooks, timers`all, timers`live, timers`clock, timers`sane
      ensures timer == null <==> timeout.None?
      ensures made == if timer == null then old(made) else old(made) + {timer}
      ensures timers.previousTime == old(timers.previousTime)
      ensures timer == null ==> timers.timers == old(timers.timers) && timers.live == old(timers.live)
      ensures timer != null ==>
                && fresh(timer) && timer.delivered == 0 && timer.next == Wrap(now + timeout.value) && timer.addr == addr
                && timer.cb == Some(cb) && !timer.recurring
                && timers.live == old(timers.live) + {timer} && timers.all == old(timers.all) + {timer}
                && forall t :: t in timers.timers <==> t in old(timers.timers) || t == timer
      ensures iom.Valid() && timers.Valid() && Timed(timer) && Noted(true) && timers.Onward()
    {
      hide IOManager.Valid, TimerManager.Valid, Noted, Wrap;
      timer := null;
      if timeout.Some? {
        timer := timers.AddTimer(timeout.value, Some(cb), false, now, addr);
        made := made + {timer};
      }
    }

    /** addEvent for the calling fiber, up to the hold. `ok` is false when addEvent's assertion fails,
        because the direction is armed by someone else. Whether a timeout function can still end the
        wait is decided by what has happened before. */
    method Enlist(refuse: bool) returns (ok: bool)
      requires Valid() && progress.Timing? && fiber.state == EXEC && iom.sched.MayWake(fiber)
      modifies this`progress, this`registrations, timers`timers, if timer == null then {} else {timer}
      modifies iom, iom.contexts, iom.sched`parked
      ensures ok <==> !Armable(fd, event, old(iom.views))
      ensures Rest(iom.sched.parked, iom) == old(Rest(iom.sched.parked, iom))
      ensures ok ==> progress == if refuse then Returned(NotAdded) else Waiting
      ensures ok && !refuse && old(timer) != null ==> unchanged(old(timer))
      ensures ok && refuse ==> forall t :: t in timers.timers <==> t in old(timers.timers) && t != timer
      ensures ok ==>
                && iom.armed == (if refuse then old(iom.armed) else old(iom.armed)[(fd, event) := old(iom.serial)])
                && forall g :: 0 <= g < |iom.views| && g != fd ==> iom.views[g] == ViewAt(old(iom.views), g)
      ensures ok && !refuse ==>
                Blocked() && registrations == old(registrations) + {old(iom.serial)}
                  && timers.timers == old(timers.timers)
      ensures ok && !refuse ==>
                && fd < |iom.views| && (fd < |old(iom.contexts)| ==> iom.contexts == old(iom.contexts))
                && iom.views[fd] == ViewAt(old(iom.views), fd).With(event, EventContext(iom.sched, fiber, None),
                                                                    ViewAt(old(iom.views), fd).events + {event})
      ensures ok ==> Valid() && timers.Onward() && iom.Onward()
    {
      hide IOManager.Valid, Scheduler.MayWake, TimerManager.Valid, Timed, Noted, View.With, ViewAt, Share, Rest;
      hide Valid, TimerManager.Onward, IOManager.Onward;
      Parts();
      var rt := Register(refuse);
      if rt == Aborted {
        return false;
      }
      if rt == Refused {
        DropTimer();
        progress := Returned(NotAdded);
      } else {
        progress := Waiting;
      }
      timers.Fewer();
      Parts();
      return true;
    }

    /** addEvent for the calling fiber. */
    method Register(refuse: bool) returns (rt: AddResult)
      requires iom.Valid() && Noted(true) && fiber in iom.sched.all && fiber.state == EXEC && iom.sched.MayWake(fiber)
      requires timers.Valid() && Timed(timer)
      modifies this`registrations, iom, iom.contexts, iom.sched`parked
      ensures iom.Valid() && timers.Valid() && Timed(timer) && iom.Onward()
      ensures Rest(iom.sched.parked, iom) == old(Rest(iom.sched.parked, iom))
      ensures rt == if Armable(fd, event, old(iom.views)) then Aborted else if refuse then Refused else Added
      ensures rt == Refused ==> Noted(true)
      ensures iom.armed == if rt == Added then old(iom.armed)[(fd, event) := old(iom.serial)] else old(iom.armed)
      ensures forall g :: 0 <= g < |iom.views| && g != fd ==> iom.views[g] == ViewAt(old(iom.views), g)
      ensures rt == Added ==>
                && Noted(false) && registrations == old(registrations) + {old(iom.serial)}
                && (fd, event) in iom.armed && iom.armed[(fd, event)] == old(iom.serial)
                && fd < |iom.views| && (fd < |old(iom.contexts)| ==> iom.contexts == old(iom.contexts))
                && iom.views[fd] == ViewAt(old(iom.views), fd).With(event, EventContext(iom.sched, fiber, None),
                                                                    ViewAt(old(iom.views), fd).events + {event})
    {
      hide IOManager.Valid, Scheduler.MayWake, TimerManager.Valid, Timed, View.With, ViewAt, Share, Rest;
      iom.NumbersBelow();
      rt := iom.AddEvent(fd, event, None, fiber, iom.sched, refuse);
      if rt == Added {
        registrations := registrations + {iom.serial - 1};
      }
    }

    /** timer->cancel() if there is one: afterwards no timer of this call is in the set. */
    method DropTimer()
      requires iom.Valid() && Noted(true) && timers.Valid() && Timed(timer)
      modifies timers`timers, if timer == null then {} else {timer}
      ensures forall t :: t in old(timers.all) ==> t.delivered == old(t.delivered)
      ensures forall t :: t in timers.timers <==> t in old(timers.timers) && t != timer
      ensures iom.Valid() && Noted(true) && timers.Valid() && Timed(null)
    {
      hide IOManager.Valid, TimerManager.Valid, Noted;
      if timer != null {
        TimersKnown();
        var gone := timer.Cancel();
      }
    }

    lemma TimersKnown()
      requires timers.Valid() && Timed(timer) && timer != null
      ensures timer.manager == timers && timer.callable && (timer.cb.None? ==> timer !in timers.timers)
    {
    }

    /** The fiber has been woken: none of its registrations is armed, or it could be woken again. */
    lemma Woken()
      requires iom.Valid() && Noted(false) && iom.sched.MayWake(fiber)
      ensures Noted(true)
    {
      hide IOManager.Valid;
      forall k | k in iom.armed && iom.armed[k] in registrations
        ensures false
      {
        iom.HolderWaits(iom.armed[k], fiber);
      }
    }

    /** The rest of the round after YieldToHold: the timer goes, and the call ends or tries again. It ends
        early exactly if it was marked although this round's timer was not due; the mark is then that of
        an earlier round. */
    method Resume()
      requires Valid() && progress.Waiting? && iom.sched.MayWake(fiber)
      modifies this`progress, timers`timers, if timer == null then {} else {timer}
      ensures progress == if cancelled then Returned(TimedOut) else Trying
      ensures forall t :: t in timers.timers <==> t in old(timers.timers) && t != timer
      ensures old(timer) != null ==> old(timer).delivered == old(timer.delivered)
      ensures Early() <==> cancelled && timer != null && timer.delivered == 0
      ensures Early() ==> fired != timer
      ensures Valid() && timers.Onward()
    {
      hide IOManager.Valid, Scheduler.MayWake, TimerManager.Valid, Noted;
      Woken();
      DropTimer();
      timers.Fewer();
      progress := if cancelled then Returned(TimedOut) else Trying;
    }

    // ----- timeout functions -----

    /** OnTimer for timer t: the function goes on only if the call has not returned, and from then on keeps
        the shared state alive, whether or not the call returns. */
    method Enter(t: Timer) returns (alive: bool)
      requires Valid() && t in made && t.delivered >= 1
      modifies this`inside
      ensures Valid() && alive == !progress.Returned? && inside == if alive then old(inside) + {t} else old(inside)
    {
      hide IOManager.Valid, TimerManager.Valid, Noted;
      alive := !progress.Returned?;
      if alive {
        inside := inside + {t};
      }
    }

    /** The test and the mark of a function that has locked the shared state: it goes on to cancelEvent
        exactly if no function has marked the call before, even if the call has returned in between. */
    method Mark(t: Timer) returns (go: bool)
      requires Valid() && t in inside
      modifies this`cancelled, this`fired, this`cancelling, this`inside
      ensures Valid() && go == !old(cancelled) && (go ==> !old(cancelling)) && inside == old(inside) - {t}
      ensures cancelled && cancelling == (old(cancelling) || go)
      ensures fired == if go then t else old(fired)
    {
      hide Valid, IOManager.Valid, TimerManager.Valid, Noted;
      Parts();
      inside := inside - {t};
      go := !cancelled;
      if go {
        cancelled, fired, cancelling := true, t, true;
      }
      Parts();
    }

    /** The cancelEvent of the function that set the mark; the call may have gone on in between. */
    method CancelMarked(refuse: bool)
      requires Valid() && cancelling
      modifies this`cancelling, iom, iom.contexts
      modifies iom.sched`fibers, iom.sched`issued, iom.sched`parked
      ensures Valid() && !cancelling && iom.Onward()
      ensures Rest(iom.sched.parked, iom) == old(Rest(iom.sched.parked, iom))
      ensures iom.serial == old(iom.serial) && iom.deleted == old(iom.deleted) && iom.contexts == old(iom.contexts)
      ensures if refuse || !Armable(fd, event, old(iom.views))
              then && iom.armed == old(iom.armed) && iom.woken == old(iom.woken) && iom.views == old(iom.views)
                   && iom.sched.fibers == old(iom.sched.fibers) && iom.sched.parked == old(iom.sched.parked)
              else && iom.armed == old(iom.armed) - {(fd, event)}
                   && iom.woken == old(iom.woken) + {old(iom.armed)[(fd, event)]}
                   && iom.sched.fibers == old(iom.sched.fibers) + [WakeUp(old(iom.views)[fd].At(event))]
      ensures iom.armed == if refuse then old(iom.armed) else old(iom.armed) - {(fd, event)}
      ensures iom.sched.fibers == old(iom.sched.fibers)
                                  + if refuse then [] else Asked(old(iom.armed), old(iom.asked), fd, event)
      ensures old(Blocked()) ==>
                && (Blocked() <==> refuse)
                && iom.sched.fibers == old(iom.sched.fibers) + if refuse then [] else [Task(fiber, None, -1)]
    {
      hide Valid, Scheduler.Valid, IOManager.Valid, TimerManager.Valid, View.With, Share, Rest;
      Parts();
      if Blocked() {
        Holding();
      }
      iom.ArmedNow(fd, event);
      var r := iom.CancelEvent(fd, event, refuse);
      cancelling := false;
      Parts();
    }

    lemma Armed()
      requires Valid() && Blocked()
      ensures Armable(fd, event, iom.views)
    {
      hide Scheduler.Valid, TimerManager.Valid, Timed;
      Holding();
    }

    /** An armed registration of the call is in the context of its event, with its fiber. */
    lemma Holding()
      requires iom.Valid() && Noted(false) && Blocked()
      ensures Armable(fd, event, iom.views) && WakeUp(iom.views[fd].At(event)) == Task(fiber, None, -1)
    {
      hide Scheduler.Valid, IOManager.Counted, IOManager.Interest;
      iom.At(fd, event);
    }

    /** The whole function without interruption. It ends a wait exactly if no function has marked the call
        before and epoll_ctl does not refuse; once the call has returned it does nothing. */
    method FireTimeout(t: Timer, refuse: bool)
      requires Valid() && t in made && t.delivered >= 1
      modifies this`cancelled, this`fired, this`cancelling, this`inside, iom, iom.contexts
      modifies iom.sched`fibers, iom.sched`issued, iom.sched`parked
      ensures Valid() && iom.Onward() && inside == (if progress.Returned? then old(inside) else old(inside) - {t})
      ensures cancelled == (old(cancelled) || !progress.Returned?)
      ensures Rest(iom.sched.parked, iom) == old(Rest(iom.sched.parked, iom))
      ensures fired == if old(cancelled) || progress.Returned? then old(fired) else t
      ensures cancelling == old(cancelling) && iom.contexts == old(iom.contexts)
      ensures old(Blocked()) ==>
                && (Blocked() <==> old(cancelled) || refuse)
                && iom.sched.fibers == old(iom.sched.fibers) + if Blocked() then [] else [Task(fiber, None, -1)]
      ensures old(cancelled) || progress.Returned? || refuse || !Armable(fd, event, old(iom.views)) ==>
                && iom.armed == old(iom.armed) && iom.woken == old(iom.woken)
                && iom.sched.fibers == old(iom.sched.fibers)
                && iom.views == old(iom.views) && iom.sched.parked == old(iom.sched.parked)
    {
      hide IOManager.Valid, TimerManager.Valid, Timed, Noted, Share, Rest, View.With;
      var alive := Enter(t);
      if alive {
        var go := Mark(t);
        if go {
          CancelMarked(refuse);
        }
      }
    }

    /** A call that has returned leaves nothing behind: its timers are out of the set and cannot fire any
        more, its registrations have all ended, and ETIMEDOUT means that one of its timers was delivered. */
    lemma NoResidue()
      requires Valid() && progress.Returned?
      ensures forall t :: t in made ==> t !in timers.timers && t.cb.None?
      ensures forall n :: n in registrations ==> n in iom.woken || n in iom.deleted
      ensures progress.result == TimedOut ==> exists t :: t in made && t.delivered == 1 && !t.cancelled
    {
      hide TimerManager.Ordered, TimerManager.Paced, TimerManager.Awake, Scheduler.Valid;
      forall n | n in registrations
        ensures n in iom.woken || n in iom.deleted
      {
        iom.Resolved(n);
      }
    }
  }
}
