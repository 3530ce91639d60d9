/** Timer and TimerManager (timer.cpp, timer.h): an ordered set of timers keyed on deadlines that
    change, with callbacks delivered on expiry and a wake-up flag for the waiting thread. */
module Timers {
  import opened Prelude

  const TWO64: nat := 0x1_0000_0000_0000_0000
  const MAX64: nat := TWO64 - 1
  const HOUR: nat := 60 * 60 * 1000

  /** uint64_t milliseconds. */
  type U64 = n: nat | n < TWO64

  function Wrap(x: int): U64 {
    x % TWO64
  }

  lemma WrapSmall(x: int)
    ensures 0 <= x < TWO64 ==> Wrap(x) == x
  {
  }

  /** A deadline lies before the time it is counted from exactly if it passes 2^64. */
  lemma DeadlineIff(now: U64, ms: U64)
    ensures Wrap(now + ms) < now <==> now + ms >= TWO64
    ensures Wrap(now + ms) == if now + ms < TWO64 then now + ms else now + ms - TWO64
  {
  }

  /** What the comparator reads of a timer. */
  datatype Key = Key(next: nat, addr: nat)

  /** Comparator::operator(): null first, then by deadline, then by address. */
  predicate Before(l: Option<Key>, r: Option<Key>) {
    if l.None? && r.None? then false
    else if l.None? then true
    else if r.None? then false
    else if l.value.next < r.value.next then true
    else if r.value.next < l.value.next then false
    else l.value.addr < r.value.addr
  }

  /** The comparator is a strict total order, so equivalent keys are equal. */
  lemma BeforeStrictOrder(a: Option<Key>, b: Option<Key>, c: Option<Key>)
    ensures !Before(a, a)
    ensures Before(a, b) && Before(b, c) ==> Before(a, c)
    ensures !Before(a, b) && !Before(b, a) <==> a == b
    ensures a.Some? && b.Some? ==>
              var (k, l) := (a.value, b.value);
              Before(a, b) <==> k.next < l.next || (k.next == l.next && k.addr < l.addr)
    ensures a.None? || b.None? ==> (Before(a, b) <==> a.None? && b.Some?)
  {
  }

  predicate RolledOver(now: nat, previous: nat) {
    now < previous && now < Wrap(previous - HOUR)
  }

  /** The exact condition under which a step back counts as a rollover. */
  lemma RolledOverIff(now: U64, previous: U64)
    ensures RolledOver(now, previous) <==> now < previous && (previous < HOUR || previous - now > HOUR)
  {
  }

  class Timer {
    const addr: nat
    const recurring: bool
    const manager: TimerManager
    var ms: U64
    var next: U64
    var cb: Option<Callback>

    // Life history: creation time and kind; deliveries so far; whether a cancel returned true and
    // whether a refresh or reset re-armed the timer.
    ghost const born: nat
    ghost const callable: bool
    ghost var delivered: nat
    ghost var cancelled: bool
    ghost var touched: bool

    constructor (ms: U64, cb: Option<Callback>, recurring: bool, manager: TimerManager, now: U64, addr: nat)
      ensures this.ms == ms && this.cb == cb && this.recurring == recurring && this.manager == manager
      ensures this.addr == addr && next == Wrap(now + ms)
      ensures born == now && callable == cb.Some? && delivered == 0 && !cancelled && !touched
    {
      this.addr, this.recurring, this.manager, this.ms, this.cb := addr, recurring, manager, ms, cb;
      next := Wrap(now + ms);
      born, callable, delivered, cancelled, touched := now, cb.Some?, 0, false, false;
    }

    ghost function Rank(): Option<Key>
      reads this`next
    {
      Some(Key(next, addr))
    }

    /** operator() on two timers. */
    predicate Less(t: Timer)
      reads this`next, t`next
    {
      Before(Some(Key(next, addr)), Some(Key(t.next, t.addr)))
    }

    /** cancel: true exactly when the callback was still to come. */
    method Cancel() returns (ok: bool)
      requires manager.Valid() && this in manager.live
      modifies this, manager`timers
      ensures manager.Valid()
      ensures ok == old(cb.Some?)
      ensures ok ==> cancelled && cb.None? && this !in manager.timers
      ensures ok ==>
                && this in old(manager.timers)
                && multiset(old(manager.timers)) == multiset(manager.timers) + multiset{this}
      ensures ok ==> forall t :: t in manager.timers <==> t in old(manager.timers) && t != this
      ensures old(manager.NoLostWakeup()) ==> manager.NoLostWakeup()
      ensures !ok ==> manager.timers == old(manager.timers) && cb == old(cb) && cancelled == old(cancelled)
      ensures next == old(next) && ms == old(ms) && delivered == old(delivered) && touched == old(touched)
    {
      if cb.None? {
        return false;
      }
      var it := manager.Find(this);
      manager.Erase(it);
      cb := None;
      cancelled := true;
      return true;
    }

    /** refresh: the deadline becomes one period from now. The hook is not called. */
    method Refresh(now: U64) returns (ok: bool)
      requires manager.Valid() && this in manager.live
      modifies this`next, this`ms, this`touched, manager`timers, manager`clock, manager`sane
      ensures manager.Valid() && manager.OnlyRearmed(this)
      ensures ok == old(cb.Some?)
      ensures ok ==> next == Wrap(now + ms) && this in manager.timers && touched
      ensures ok ==> manager.sane == (old(manager.sane) && old(manager.clock) <= now && now + ms < TWO64)
      ensures !ok ==> next == old(next) && manager.sane == old(manager.sane)
      ensures ms == old(ms) && manager.tickled == old(manager.tickled) && manager.seen == old(manager.seen)
      ensures old(manager.NoLostWakeup()) ==>
                (manager.NoLostWakeup() <==>
                 !ok || manager.tickled || (manager.seen.Some? && manager.seen.value <= Wrap(now + ms)))
    {
      hide TimerManager.Ordered, TimerManager.Members, TimerManager.Handles, TimerManager.History, TimerManager.Paced;
      hide TimerManager.Awake, TimerManager.OnlyRearmed, TimerManager.NoLostWakeup, Timer.Less, Wrap;
      manager.AllKnown(manager.timers);
      if cb.None? {
        manager.RearmedHere(this);
        return false;
      }
      TakeOut();
      WrapSmall(now + ms);
      ArmAt(Wrap(now + ms), ms);
      manager.Observe(now, now + ms);
      var at := manager.Insert(this);
      manager.RearmedHere(this);
      manager.Rearmed(this);
      manager.AwakeLater(this);
      manager.RefreshWakes(this);
      return true;
    }

    /** The start of refresh and reset: the timer is found in the set and erased from it. */
    method TakeOut()
      requires manager.Valid() && this in manager.live && cb.Some?
      modifies manager`timers
      ensures manager.Ordered() && manager.Members() && manager.Awake()
      ensures this !in manager.timers && this in old(manager.timers)
      ensures forall t :: t in manager.timers <==> t in old(manager.timers) && t != this
      ensures old(manager.NoLostWakeup()) ==> manager.NoLostWakeup()
      ensures manager.sane ==> ms <= next <= manager.clock + ms
    {
      hide TimerManager.Ordered, TimerManager.History, TimerManager.Awake, Timer.Less, Wrap;
      var it := manager.Find(this);
      if it == |manager.timers| {
        assert false;  // never missing: the callback is set exactly while the timer is in the set
      }
      manager.Erase(it);
    }

    /** reset: a new period, counted from now or from the time the timer was last armed. Without any
        change asked for it returns true even for a timer that is gone. */
    method Reset(period: U64, fromNow: bool, now: U64) returns (ok: bool)
      requires manager.Valid() && this in manager.live
      modifies this`next, this`ms, this`touched, manager`timers, manager`clock, manager`sane
      modifies manager`tickled, manager`hooks
      ensures manager.Valid() && manager.OnlyRearmed(this)
      ensures ok == (old(cb.Some?) || (period == old(ms) && !fromNow))
      ensures if old(cb.Some?) && !(period == old(ms) && !fromNow)
              then ms == period && touched && this in manager.timers
                   && next == Wrap(if fromNow then now + period else Wrap(old(next) - old(ms)) + period)
              else ms == old(ms) && next == old(next) && manager.timers == old(manager.timers)
      ensures old(manager.NoLostWakeup()) ==> manager.NoLostWakeup()
      ensures manager.tickled == (old(manager.tickled)
                                  || (old(cb.Some?) && !(period == old(ms) && !fromNow) && manager.timers[0] == this))
      ensures manager.sane == (old(manager.sane) && (old(cb.None?) || (period == old(ms) && !fromNow) ||
                if fromNow then old(manager.clock) <= now && now + period < TWO64
                else Wrap(old(next) - old(ms)) + period < TWO64))
    {
      hide TimerManager.Ordered, TimerManager.Members, TimerManager.Handles, TimerManager.History, TimerManager.Paced;
      hide TimerManager.Awake, TimerManager.OnlyRearmed, TimerManager.NoLostWakeup, Timer.Less, Wrap;
      manager.AllKnown(manager.timers);
      manager.RearmedHere(this);
      if period == ms && !fromNow {
        return true;
      }
      if cb.None? {
        return false;
      }
      TakeOut();
      WrapSmall(next - ms);
      var start := if fromNow then now else Wrap(next - ms);
      Rejoin(if fromNow then now else manager.clock, start, period);
      manager.RearmedHere(this);
      manager.Rearmed(this);
      return true;
    }

    /** The end of reset: back into the set with the new deadline, by way of addTimer. */
    method Rejoin(ghost reading: nat, start: U64, period: U64)
      requires this !in manager.timers && this in manager.live && manager.Ordered() && manager.Members()
               && manager.Awake()
      modifies this`next, this`ms, this`touched, manager`timers
      modifies manager`tickled, manager`hooks, manager`clock, manager`sane
      ensures manager.Ordered() && manager.Members() && manager.Awake()
      ensures next == Wrap(start + period) && ms == period && touched
      ensures forall t :: t in manager.timers <==> t in old(manager.timers) || t == this
      ensures manager.sane == (old(manager.sane) && old(manager.clock) <= reading && start + period < TWO64)
      ensures manager.sane ==> manager.clock == reading && next == start + period
      ensures manager.timers != [] && manager.tickled == (old(manager.tickled) || manager.timers[0] == this)
      ensures old(manager.NoLostWakeup()) ==> manager.NoLostWakeup()
    {
      hide TimerManager.Ordered, TimerManager.Members, TimerManager.Awake, TimerManager.NoLostWakeup, Timer.Less, Wrap;
      WrapSmall(start + period);
      ArmAt(Wrap(start + period), period);
      manager.Observe(reading, start + period);
      manager.AddTimerLocked(this);
    }

    /** A new deadline and period, while the timer is outside the set. */
    method ArmAt(deadline: U64, period: U64)
      requires this !in manager.timers
      modifies this`next, this`ms, this`touched
      ensures next == deadline && ms == period && touched
    {
      next, ms, touched := deadline, period, true;
    }
  }

  class TimerManager {
    var timers: seq<Timer>
    var tickled: bool
    var previousTime: U64

    /** Every timer created by this manager, and those that are still allocated, because they are in the
        set or somebody holds a handle; only their addresses are in use. */
    ghost var all: set<Timer>
    ghost var live: set<Timer>
    /** The latest of the clock readings so far; and whether the clock has kept to its order: every reading
        taken inside the lock was at least as late as all before it, no rollover was detected, and no
        deadline left 64 bits. Readings taken before the lock may enter late, in any order. */
    ghost var clock: nat
    ghost var sane: bool
    /** The earliest deadline at the last getNextTimer, none if there was no timer; the calls of
        onTimerInsertedAtFront since then. */
    ghost var seen: Option<nat>
    ghost var hooks: nat

    ghost predicate Ordered()
      reads this`timers, timers
    {
      forall i, j :: 0 <= i < j < |timers| ==> timers[i].Less(timers[j])
    }

    ghost predicate Members()
      reads this`timers, this`all, this`live
    {
      && (forall t :: t in timers ==> t in live)
      && (forall t :: t in live ==> t in all)
      && (forall t :: t in all ==> t.manager == this)
      && (forall s, t :: s in live && t in live && s.addr == t.addr ==> s == t)
    }

    /** The callback is there exactly while the timer is in the set. */
    ghost predicate Handles()
      reads this`timers, this`all, all
    {
      && (forall t :: t in all && t.cb.Some? ==> t in timers && t.callable)
      && (forall t :: t in all && t in timers && t.callable ==> t.cb.Some?)
    }

    /** One-shot timers are delivered at most once; nothing is delivered after a successful cancel. */
    ghost predicate History()
      reads this`timers, this`all, all
    {
      && (forall t :: t in all && t.cancelled ==> t !in timers)
      && (forall t :: t in all && !t.recurring ==> t.delivered <= 1)
      && (forall t :: t in all && !t.recurring && t.delivered == 1 ==> t !in timers)
      && (forall t :: t in all && !t.recurring && t.cancelled ==> t.delivered == 0)
    }

    /** With a sane clock every timer was last armed at some time in the past, and an untouched
        recurring timer was delivered at most once a period. */
    ghost predicate Paced()
      reads this`all, this`clock, this`sane, all
    {
      sane ==>
        && (forall t :: t in all ==> t.ms <= t.next <= clock + t.ms)
        && (forall t :: t in all && t.recurring && !t.touched ==> t.born + t.delivered * t.ms + t.ms <= t.next)
    }

    /** No lost wake-up: the waiting thread has been told, or nothing is due before what it saw. */
    ghost predicate Awake()
      reads this`timers, this`tickled, this`sane, this`seen, this`hooks, timers
    {
      && hooks == (if tickled then 1 else 0)
      && (sane && !tickled ==> forall t :: t in timers ==> seen.Some? && seen.value <= t.next)
    }

    /** The wake-up condition itself: either the waiter has been told or it sleeps no longer than the
        earliest deadline. */
    ghost predicate NoLostWakeup()
      reads this`timers, this`tickled, this`seen, timers
    {
      tickled || forall t :: t in timers ==> seen.Some? && seen.value <= t.next
    }

    ghost predicate Valid()
      reads this, timers, all
    {
      Ordered() && Members() && Handles() && History() && Paced() && Awake()
      && (sane ==> previousTime <= clock)
    }

    constructor (now: U64)
      ensures Valid() && timers == [] && all == live == {} && sane && !tickled && seen == None && previousTime == now
    {
      timers, tickled, previousTime := [], false, now;
      all, live, clock, sane, seen, hooks := {}, {}, now, true, None, 0;
    }

    // ----- std::set -----

    /** std::set::find, by the comparator alone: the index of an equivalent element, or the size. */
    method Find(t: Timer) returns (i: nat)
      requires Ordered() && Members() && t in live
      ensures i <= |timers|
      ensures i < |timers| ==> timers[i] == t
      ensures i < |timers| <==> t in timers
    {
      i := LowerBound(t.next, t.addr);
      if i < |timers| && t.Less(timers[i]) {
        i := |timers|;
      }
    }

    /** std::set::lower_bound: the first element that is not before the key. */
    method LowerBound(next: nat, addr: nat) returns (i: nat)
      requires Ordered()
      ensures i <= |timers|
      ensures forall j :: 0 <= j < i ==> Before(timers[j].Rank(), Some(Key(next, addr)))
      ensures forall j :: i <= j < |timers| ==> !Before(timers[j].Rank(), Some(Key(next, addr)))
    {
      i := 0;
      while i < |timers| && Before(Some(Key(timers[i].next, timers[i].addr)), Some(Key(next, addr)))
        invariant i <= |timers|
        invariant forall j :: 0 <= j < i ==> Before(timers[j].Rank(), Some(Key(next, addr)))
      {
        i := i + 1;
      }
      forall j | i <= j < |timers|
        ensures !Before(timers[j].Rank(), Some(Key(next, addr)))
      {
        assert i < j ==> timers[i].Less(timers[j]);
      }
    }

    method Erase(i: nat)
      requires Ordered() && Members() && Awake() && i < |timers|
      modifies this`timers
      ensures Ordered() && Members() && Awake()
      ensures timers == old(timers)[..i] + old(timers)[i + 1..]
      ensures old(timers)[i] !in timers
      ensures forall t :: t in timers <==> t in old(timers) && t != old(timers)[i]
      ensures multiset(old(timers)) == multiset(timers) + multiset{old(timers)[i]}
    {
      assert timers == timers[..i] + [timers[i]] + timers[i + 1..];
      timers := timers[..i] + timers[i + 1..];
    }

    /** std::set::insert of a timer that is not in the set. */
    method Insert(t: Timer) returns (i: nat)
      requires Ordered() && Members() && t in live && t !in timers
      modifies this`timers
      ensures Ordered() && Members() && i <= |old(timers)|
      ensures timers == old(timers)[..i] + [t] + old(timers)[i..]
      ensures forall s :: s in timers <==> s in old(timers) || s == t
      ensures i > 0 ==> timers[0] == old(timers)[0] && timers[0].next <= t.next
    {
      i := LowerBound(t.next, t.addr);
      timers := timers[..i] + [t] + timers[i..];
    }

    /** One more reading of the clock, for a deadline that should have been `deadline`. */
    ghost method Observe(now: nat, deadline: nat)
      modifies this`clock, this`sane
      ensures sane == (old(sane) && old(clock) <= now && deadline < TWO64)
      ensures sane ==> clock == now
      ensures old(Awake()) ==> Awake()
      ensures old(Paced()) ==> Paced()
    {
      sane := sane && clock <= now && deadline < TWO64;
      clock := now;
    }

    /** A reading that was taken before the lock, so that later ones may have entered in the meantime. */
    ghost method Overhear(now: nat, fine: bool)
      modifies this`clock, this`sane
      ensures sane == (old(sane) && fine) && old(clock) <= clock && now <= clock && clock in {old(clock), now}
      ensures old(Awake()) ==> Awake()
      ensures old(Paced()) ==> Paced()
    {
      sane := sane && fine;
      clock := if clock < now then now else clock;
    }

    /** Nothing but the deadline, period and touched mark of t has changed. */
    twostate predicate OnlyRearmed(t: Timer)
      reads this`all, this`live, this`timers, all
    {
      && all == old(all) && live == old(live)
      && (forall s :: s in all ==> (s in timers <==> s in old(timers)))
      && (forall s :: s in all ==>
          s.cb == old(s.cb) && s.delivered == old(s.delivered) && s.cancelled == old(s.cancelled))
      && (forall s :: s in all && s != t ==> s.next == old(s.next) && s.ms == old(s.ms) && s.touched == old(s.touched))
    }

    twostate lemma RearmedHere(t: Timer)
      requires all == old(all) && live == old(live) && old(forall s :: s in timers ==> s in all)
      requires forall s :: s in timers <==> s in old(timers)
      requires forall s :: s in all && s != t ==> unchanged(s)
      requires t.cb == old(t.cb) && t.delivered == old(t.delivered) && t.cancelled == old(t.cancelled)
      ensures OnlyRearmed(t)
    {
    }

    /** Re-arming a timer keeps everything that does not depend on the deadlines' order. */
    twostate lemma Rearmed(t: Timer)
      requires old(Handles() && History() && Paced()) && old(allocated(t)) && OnlyRearmed(t)
      requires sane ==> old(sane) && old(clock) <= clock
      requires t.touched && (sane ==> t.ms <= t.next <= clock + t.ms)
      ensures Handles() && History() && Paced()
    {
    }

    /** Moving a deadline back in time needs no wake-up. */
    twostate lemma AwakeLater(t: Timer)
      requires old(Awake() && Members()) && old(allocated(t)) && OnlyRearmed(t)
      requires (sane ==> old(sane)) && seen == old(seen) && hooks == old(hooks) && tickled == old(tickled)
      requires Members() && (sane ==> old(t.next) <= t.next)
      ensures Awake()
    {
    }

    /** addTimer(val, lock): the hook is called when the timer is now first and no call is pending. */
    method AddTimerLocked(t: Timer)
      requires Ordered() && Members() && Awake() && t in live && t !in timers
      modifies this`timers, this`tickled, this`hooks
      ensures Ordered() && Members() && Awake()
      ensures forall s :: s in timers <==> s in old(timers) || s == t
      ensures tickled == (old(tickled) || timers[0] == t)
      ensures old(NoLostWakeup()) ==> NoLostWakeup()
    {
      var it := Insert(t);
      var atFront := it == 0 && !tickled;
      if atFront {
        tickled := true;
      }
      if atFront {
        OnTimerInsertedAtFront();
      }
    }

    /** The hook that wakes the thread waiting for the next deadline; here it only counts. */
    method OnTimerInsertedAtFront()
      modifies this`hooks
      ensures hooks == old(hooks) + 1
    {
      hooks := hooks + 1;
    }

    /** addTimer(ms, cb, recurring), at a time and an address that are the environment's. The clock is read
        before the lock. */
    method AddTimer(ms: U64, cb: Option<Callback>, recurring: bool, now: U64, addr: nat) returns (t: Timer)
      requires Valid() && forall s :: s in live ==> s.addr != addr
      modifies this`timers, this`tickled, this`hooks, this`all, this`live, this`clock, this`sane
      ensures Valid() && fresh(t) && all == old(all) + {t} && live == old(live) + {t}
      ensures t.addr == addr && previousTime == old(previousTime) && (old(NoLostWakeup()) ==> NoLostWakeup())
      ensures t.manager == this && t.ms == ms && t.cb == cb && t.recurring == recurring && t.next == Wrap(now + ms)
      ensures t.born == now && t.callable == cb.Some? && t.delivered == 0 && !t.cancelled && !t.touched
      ensures forall s :: s in timers <==> s in old(timers) || s == t
      ensures sane == (old(sane) && now + ms < TWO64)
      ensures tickled == (old(tickled) || timers[0] == t)
    {
      hide Ordered, Members, Handles, History, Paced, Awake, NoLostWakeup, Timer.Less, Wrap;
      t := new Timer(ms, cb, recurring, this, now, addr);
      WrapSmall(now + ms);
      Overhear(now, now + ms < TWO64);
      Join(t);
      AddTimerLocked(t);
      Added(t);
    }

    ghost method Join(t: Timer)
      requires Members() && t !in all && t.manager == this && forall s :: s in live ==> s.addr != t.addr
      modifies this`all, this`live
      ensures Members() && all == old(all) + {t} && live == old(live) + {t} && t !in timers
    {
      all, live := all + {t}, live + {t};
    }

    /** The last handle of a timer that is not in the set goes away; its address may be used again. */
    ghost method Free(t: Timer)
      requires Valid() && t in live && t !in timers
      modifies this`live
      ensures Valid() && live == old(live) - {t}
    {
      hide Handles, History, Paced, Awake;
      live := live - {t};
    }

    /** A new timer keeps what is known of the others. */
    twostate lemma Added(new t: Timer)
      requires old(Handles() && History() && Paced() && Members()) && all == old(all) + {t} && t !in old(all)
      requires forall s :: s in old(all) ==> unchanged(s)
      requires forall s :: s in timers <==> s in old(timers) || s == t
      requires sane ==> old(sane) && old(clock) <= clock && t.born + t.ms == t.next <= clock + t.ms
      requires t.delivered == 0 && !t.cancelled && t.callable == t.cb.Some?
      ensures Handles() && History() && Paced()
    {
    }

    /** getNextTimer: how long to wait, or the largest value when there is nothing to wait for. */
    method GetNextTimer(now: U64) returns (wait: U64)
      requires Valid()
      modifies this`tickled, this`seen, this`hooks, this`clock, this`sane
      ensures Valid() && !tickled && NoLostWakeup()
      ensures seen == if timers == [] then None else Some(timers[0].next)
      ensures timers != [] ==> wait == if now >= timers[0].next then 0 else timers[0].next - now
      ensures forall t :: t in timers ==> now + wait <= t.next || wait == 0
      ensures wait == MAX64 <==> timers == [] || (now == 0 && timers[0].next == MAX64)
      ensures sane == (old(sane) && (timers == [] || old(clock) <= now))
    {
      hide Ordered, Members, Handles, History, Paced, Timer.Less;
      tickled, hooks := false, 0;
      if timers == [] {
        seen := None;
        return MAX64;
      }
      seen := Some(timers[0].next);
      FirstIsEarliest();
      Observe(now, now);
      if now >= timers[0].next {
        return 0;
      }
      return timers[0].next - now;
    }

    /** What every step does to the timers there are: deliveries only go up, and a timer that has left the
        set does not come back. */
    twostate predicate Onward()
      reads this`all, this`timers, all`delivered
    {
      && old(all) <= all
      && (forall t :: t in old(all) ==> t.delivered >= old(t.delivered))
      && (forall t :: t in old(all) && t in timers ==> t in old(timers))
    }

    twostate lemma Fewer()
      requires all == old(all) && forall t :: t in all ==> t.delivered == old(t.delivered)
      requires forall t :: t in timers ==> t in old(timers)
      ensures Onward()
    {
    }

    lemma Known()
      requires Valid()
      ensures forall t :: t in timers ==> t in live && t in all
    {
    }

    lemma FirstIsEarliest()
      requires Ordered()
      ensures forall t :: t in timers ==> timers[0].next <= t.next
    {
      forall t | t in timers
        ensures timers[0].next <= t.next
      {
        var j :| 0 <= j < |timers| && timers[j] == t;
        assert j > 0 ==> timers[0].Less(timers[j]);
      }
    }

    /** detectClockRollover: the clock is back by more than an hour; unsigned, so within the first
        hour any step back counts. */
    method DetectClockRollover(now: U64) returns (rollover: bool)
      modifies this`previousTime
      ensures rollover == RolledOver(now, old(previousTime)) && previousTime == now
    {
      rollover := false;
      if now < previousTime && now < Wrap(previousTime - HOUR) {
        rollover := true;
      }
      previousTime := now;
    }

    /** The timers that are due, as the length of a prefix of the set: lower_bound of a probe timer at
        `now` with an address of its own, then on over equal deadlines. */
    method DueCount(now: U64, probe: nat, rollover: bool) returns (cut: nat)
      requires Ordered()
      ensures cut <= |timers|
      ensures rollover ==> cut == |timers|
      ensures !rollover ==> forall i :: 0 <= i < |timers| ==> (i < cut <==> timers[i].next <= now)
    {
      if rollover {
        cut := |timers|;
      } else {
        cut := LowerBound(now, probe);
      }
      while cut < |timers| && timers[cut].next == now
        invariant cut <= |timers|
        invariant forall i :: 0 <= i < cut ==> rollover || timers[i].next <= now
        invariant forall i :: cut <= i < |timers| ==> !rollover && now <= timers[i].next
      {
        cut := cut + 1;
      }
      forall i | cut <= i < |timers|
        ensures now < timers[i].next
      {
        assert cut < i ==> timers[cut].Less(timers[i]);
      }
    }

    /** What delivery does to one timer: a recurring one is re-armed, any other one is spent. */
    twostate predicate Fired(t: Timer, now: nat)
      reads this`timers, t
    {
      && t.delivered == old(t.delivered) + 1
      && t.ms == old(t.ms) && t.touched == old(t.touched) && t.cancelled == old(t.cancelled)
      && if t.recurring then t in timers && t.next == Wrap(now + t.ms) && t.cb == old(t.cb)
         else t !in timers && t.next == old(t.next) && t.cb == None
    }

    /** The due prefix is taken out of the set, and each of its timers delivered, in order. */
    method Deliver(cut: nat, now: U64) returns (cbs: seq<Option<Callback>>)
      requires Ordered() && Members() && cut <= |timers|
      modifies this`timers, all
      ensures Ordered() && Members()
      ensures |cbs| == cut && forall i :: 0 <= i < cut ==> cbs[i] == old(timers[i].cb)
      ensures forall t :: t in old(timers)[..cut] ==> Fired(t, now)
      ensures forall t :: t in all && t !in old(timers)[..cut] ==> unchanged(t) && (t in timers <==> t in old(timers))
    {
      hide Ordered, Members, Timer.Less, Wrap;
      var expired := timers[..cut];
      Distinct();
      TakeOut(cut);
      cbs := [];
      for j := 0 to cut
        invariant Ordered() && Members()
        invariant |cbs| == j && forall i :: 0 <= i < j ==> cbs[i] == old(timers[i].cb)
        invariant forall i :: 0 <= i < j ==> Fired(expired[i], now)
        invariant forall i :: j <= i < cut ==> unchanged(expired[i]) && expired[i] !in timers
        invariant forall t :: t in all && t !in expired ==> unchanged(t) && (t in timers <==> t in old(timers))
      {
        var timer := expired[j];
        assert timer in expired && timer in live;
        cbs := cbs + [timer.cb];
        Fire(timer, now);
      }
    }

    /** One turn of the loop, after the callback has been copied. */
    method Fire(timer: Timer, now: U64)
      requires Ordered() && Members() && timer in live && timer !in timers
      modifies this`timers, timer
      ensures Ordered() && Members() && Fired(timer, now)
      ensures forall t :: t in all && t != timer ==> (t in timers <==> t in old(timers))
    {
      hide Ordered, Members, Timer.Less, Wrap;
      timer.delivered := timer.delivered + 1;
      if timer.recurring {
        timer.next := Wrap(now + timer.ms);
        var it := Insert(timer);
      } else {
        timer.cb := None;
      }
    }

    /** The part of listExpiredCb under its second lock, with a reading and a look at the set from before:
        the callbacks of exactly the timers that are due, in the order of the set, whatever address the probe
        timer has; all of them after a rollover. `ok` is false if *begin() is taken of an empty set. */
    method Collect(now: U64, probe: nat) returns (ok: bool, cbs: seq<Option<Callback>>)
      requires Valid()
      modifies this`timers, this`previousTime, this`clock, this`sane, all
      ensures Valid() && all == old(all) && live == old(live) && tickled == old(tickled) && previousTime == now
      ensures ok <==> old(timers) != [] || RolledOver(now, old(previousTime))
      ensures |cbs| <= |old(timers)|
      ensures RolledOver(now, old(previousTime)) ==> |cbs| == |old(timers)|
      ensures !RolledOver(now, old(previousTime)) ==>
                forall i :: 0 <= i < |old(timers)| ==> (i < |cbs| <==> old(timers[i].next) <= now)
      ensures forall i :: 0 <= i < |cbs| ==> cbs[i] == old(timers[i].cb)
      ensures forall t :: t in old(timers)[..|cbs|] ==> Fired(t, now)
      ensures forall t :: t in all && t !in old(timers)[..|cbs|] ==>
                unchanged(t) && (t in timers <==> t in old(timers))
      ensures forall t :: t in timers ==> now < t.next || (t.recurring && t.next == Wrap(now + t.ms))
      ensures sane ==> forall t :: t in timers ==> now < t.next || t.ms == 0
      ensures old(NoLostWakeup()) ==>
                (NoLostWakeup() <==> tickled || forall t :: t in old(timers)[..|cbs|] && t.recurring ==>
                    seen.Some? && seen.value <= t.next)
      ensures sane <==> old(sane) && (old(timers) == [] || !RolledOver(now, old(previousTime)))
                        && forall t :: t in old(timers)[..|cbs|] && t.recurring ==> now + old(t.ms) < TWO64
    {
      hide Ordered, Members, Handles, History, Paced, Awake, NoLostWakeup, Timer.Less, Wrap, RolledOver;
      Overhear(now, timers == [] || !RolledOver(now, previousTime));
      var rollover := DetectClockRollover(now);
      FirstIsEarliest();
      if !rollover {
        if timers == [] {
          return false, [];
        }
        if timers[0].next > now {
          return true, [];
        }
      }
      ok := true;
      var cut := DueCount(now, probe, rollover);
      cbs := Expire(cut, now);
    }

    /** listExpiredCb without interruption between its two locks. */
    method ListExpired(now: U64, probe: nat) returns (cbs: seq<Option<Callback>>)
      requires Valid()
      modifies this`timers, this`previousTime, this`clock, this`sane, all
      ensures Valid() && all == old(all) && live == old(live) && tickled == old(tickled)
      ensures previousTime == if old(timers) == [] then old(previousTime) else now
      ensures |cbs| <= |old(timers)|
      ensures RolledOver(now, old(previousTime)) ==> |cbs| == |old(timers)|
      ensures !RolledOver(now, old(previousTime)) ==>
                forall i :: 0 <= i < |old(timers)| ==> (i < |cbs| <==> old(timers[i].next) <= now)
      ensures forall i :: 0 <= i < |cbs| ==> cbs[i] == old(timers[i].cb)
      ensures forall t :: t in old(timers)[..|cbs|] ==> Fired(t, now)
      ensures forall t :: t in all && t !in old(timers)[..|cbs|] ==>
                unchanged(t) && (t in timers <==> t in old(timers))
      ensures forall t :: t in timers ==> now < t.next || (t.recurring && t.next == Wrap(now + t.ms))
      ensures sane ==> forall t :: t in timers ==> now < t.next || t.ms == 0
      ensures old(NoLostWakeup()) ==>
                (NoLostWakeup() <==> tickled || forall t :: t in old(timers)[..|cbs|] && t.recurring ==>
                    seen.Some? && seen.value <= t.next)
      ensures sane <==> old(sane) && (old(timers) == [] || !RolledOver(now, old(previousTime)))
                        && forall t :: t in old(timers)[..|cbs|] && t.recurring ==> now + old(t.ms) < TWO64
    {
      hide Ordered, Members, Handles, History, Paced, Awake, NoLostWakeup, Timer.Less, Wrap, RolledOver;
      if timers == [] {
        Overhear(now, true);
        return [];
      }
      var ok;
      ok, cbs := Collect(now, probe);
    }

    /** The due prefix is taken out of the set and delivered. */
    method Expire(cut: nat, now: U64) returns (cbs: seq<Option<Callback>>)
      requires Valid() && cut <= |timers| && (sane ==> now <= clock)
      requires forall i :: 0 <= i < cut ==> sane ==> timers[i].next <= now
      requires forall i :: cut <= i < |timers| ==> now < timers[i].next
      modifies this`timers, this`sane, all
      ensures Valid() && all == old(all) && tickled == old(tickled)
      ensures |cbs| == cut && forall i :: 0 <= i < cut ==> cbs[i] == old(timers[i].cb)
      ensures forall t :: t in old(timers)[..cut] ==> Fired(t, now)
      ensures forall t :: t in all && t !in old(timers)[..cut] ==> unchanged(t) && (t in timers <==> t in old(timers))
      ensures forall t :: t in timers ==> now < t.next || (t.recurring && t.next == Wrap(now + t.ms))
      ensures sane ==> forall t :: t in timers ==> now < t.next || t.ms == 0
      ensures sane <==> old(sane) && forall t :: t in old(timers)[..cut] && t.recurring ==> now + old(t.ms) < TWO64
      ensures old(NoLostWakeup()) ==>
                (NoLostWakeup() <==> tickled || forall t :: t in old(timers)[..cut] && t.recurring ==>
                    seen.Some? && seen.value <= t.next)
    {
      hide Ordered, Members, Handles, History, Paced, Awake, NoLostWakeup, Timer.Less, Wrap, Fired;
      ghost var expired := timers[..cut];
      AllKnown(expired);
      cbs := Deliver(cut, now);
      sane := sane && forall t :: t in expired && t.recurring ==> now + old(t.ms) < TWO64;
      Delivered(expired, now);
      NothingDue(expired, now);
      RearmedWakes(expired, now);
    }

    lemma AllKnown(some: seq<Timer>)
      requires Members() && some <= timers
      ensures forall t :: t in some ==> t in timers && t in live && t in all
    {
    }

    /** erase of a prefix. */
    method TakeOut(cut: nat)
      requires Ordered() && Members() && cut <= |timers|
      modifies this`timers
      ensures timers == old(timers)[cut..] && Ordered() && Members()
      ensures forall t :: t in old(timers)[..cut] ==> t !in timers && t in live && t in all
      ensures forall t :: t in all && t !in old(timers)[..cut] ==> (t in timers <==> t in old(timers))
    {
      Distinct();
      timers := timers[cut..];
    }

    lemma Distinct()
      requires Ordered()
      ensures forall i, j :: 0 <= i < j < |timers| ==> timers[i] != timers[j]
    {
      forall i, j | 0 <= i < j < |timers|
        ensures timers[i] != timers[j]
      {
        assert timers[i].Less(timers[j]);
      }
    }

    /** Delivery keeps what is known of every timer. */
    twostate lemma Delivered(expired: seq<Timer>, new now: nat)
      requires old(Valid()) && all == old(all)
      requires forall t :: t in expired ==> t in all && t in old(timers) && Fired(t, now)
      requires forall t :: t in all && t !in expired ==> unchanged(t) && (t in timers <==> t in old(timers))
      requires Members() && tickled == old(tickled) && hooks == old(hooks) && seen == old(seen)
      requires sane ==> old(sane) && old(clock) <= clock && now <= clock
      requires sane ==> forall t :: t in expired ==> old(t.next) <= now && (t.recurring ==> now + old(t.ms) < TWO64)
      ensures Handles() && History() && Paced() && Awake()
    {
      forall t | sane && t in expired && t.recurring && !t.touched
        ensures t.born + t.delivered * t.ms + t.ms <= t.next
      {
        assert t.delivered * t.ms == old(t.delivered) * t.ms + t.ms;
        WrapSmall(now + t.ms);
      }
      forall t | sane && t in expired && t.recurring
        ensures t.next == now + t.ms
      {
        WrapSmall(now + t.ms);
      }
    }

    /** Re-arming does not call the hook: the wake-up condition survives exactly if every re-armed deadline
        is late enough. */
    twostate lemma RearmedWakes(expired: seq<Timer>, new now: nat)
      requires Members() && all == old(all) && tickled == old(tickled) && seen == old(seen)
      requires forall t :: t in expired ==> t in all && t in old(timers) && Fired(t, now)
      requires forall t :: t in all && t !in expired ==> unchanged(t) && (t in timers <==> t in old(timers))
      ensures old(NoLostWakeup()) ==>
                (NoLostWakeup() <==> tickled || forall t :: t in expired && t.recurring ==>
                    seen.Some? && seen.value <= t.next)
    {
      if old(NoLostWakeup()) && !tickled {
        forall t | t in timers && t !in expired
          ensures seen.Some? && seen.value <= t.next
        {
          assert t in all && t in old(timers);
        }
      }
    }

    /** The same for one refreshed timer. */
    twostate lemma RefreshWakes(t: Timer)
      requires old(Members()) && Members() && OnlyRearmed(t) && t in timers && tickled == old(tickled)
               && seen == old(seen)
      ensures old(NoLostWakeup()) ==> (NoLostWakeup() <==> tickled || (seen.Some? && seen.value <= t.next))
    {
      if old(NoLostWakeup()) && !tickled {
        forall s | s in timers && s != t
          ensures seen.Some? && seen.value <= s.next
        {
          assert s in all && s in old(timers);
        }
      }
    }

    twostate lemma NothingDue(expired: seq<Timer>, new now: nat)
      requires Members() && forall t :: t in expired ==> t in all && t in old(timers)
      requires forall t :: t in expired ==> Fired(t, now)
      requires forall t :: t in all && t !in expired ==> t in timers ==> now < t.next
      requires sane ==> forall t :: t in expired && t.recurring ==> now + old(t.ms) < TWO64
      ensures forall t :: t in timers ==> now < t.next || (t.recurring && t.next == Wrap(now + t.ms))
      ensures sane ==> forall t :: t in timers ==> now < t.next || t.ms == 0
    {
      forall t | t in timers && t in expired
        ensures now < t.next || (t.recurring && t.next == Wrap(now + t.ms))
        ensures sane ==> now < t.next || t.ms == 0
      {
        WrapSmall(now + t.ms);
      }
    }

    /** Over every run: a one-shot timer fires at most once, never if a cancel succeeded; and with a
        sane clock a recurring timer left alone has fired at most once a period since its creation. */
    lemma FiringBounds(t: Timer)
      requires Valid() && t in all
      ensures !t.recurring ==> t.delivered <= if t.cancelled then 0 else 1
      ensures sane && t.recurring && !t.touched ==> t.delivered * t.ms <= clock - t.born
    {
    }

    /** Exactly the timers whose callback is still to come are in the set, so find never misses. */
    lemma HandleIff(t: Timer)
      requires Valid() && t in all && t.callable
      ensures t.cb.Some? <==> t in timers
    {
    }

    /** It holds in every state, if the clock has kept to its order; and the hook runs at most once between
        two waits. */
    lemma WakeupNotLost()
      requires Valid()
      ensures sane ==> NoLostWakeup()
      ensures hooks <= 1
    {
    }
  }

  /** Why the clock and the 64-bit range matter, exactly: a timer armed at t0, a wait begun at t1 and a
      refresh at t2 lose the wake-up if and only if the refreshed deadline is the earlier one. */
  method RefreshDuringWait(ms: U64, cb: Callback, t0: U64, t1: U64, t2: U64) returns (m: TimerManager, t: Timer)
    ensures m.Valid() && forall s :: s in m.timers <==> s == t
    ensures m.NoLostWakeup() <==> Wrap(t0 + ms) <= Wrap(t2 + ms)
  {
    hide TimerManager.Ordered, TimerManager.Handles, TimerManager.History, TimerManager.Paced;
    hide TimerManager.Awake, Timer.Less, Wrap;
    m := new TimerManager(t0);
    t := m.AddTimer(ms, Some(cb), false, t0, 0);
    assert t in m.timers && m.timers[0] in m.timers;
    var wait := m.GetNextTimer(t1);
    var ok := t.Refresh(t2);
  }

  /** The clock falls back to zero: the recurring timer is delivered and re-armed long before the deadline
      that the waiter saw, and the hook is not called. */
  method RearmAfterRollover(cb: Callback) returns (m: TimerManager)
    ensures m.Valid() && !m.NoLostWakeup()
  {
    hide TimerManager.Ordered, TimerManager.Handles, TimerManager.History, TimerManager.Paced;
    hide TimerManager.Awake, Timer.Less, Wrap;
    WrapSmall(4000010);
    WrapSmall(10);
    WrapSmall(400000);
    m := new TimerManager(4000000);
    var t := m.AddTimer(10, Some(cb), true, 4000000, 0);
    assert t in m.timers && m.timers[0] in m.timers;
    var wait := m.GetNextTimer(4000000);
    var cbs := m.ListExpired(0, 7);
  }

  /** One millisecond back, right after the epoch, is a rollover. */
  lemma RolledOverAtOnce()
    ensures RolledOver(0, 1)
  {
  }

  /** A timer of 10 ms, set at 0 and found due at 10. */
  method CollectOne(m: TimerManager, cb: Callback) returns (cbs: seq<Option<Callback>>)
    requires m.Valid() && m.timers == [] && m.live == {} && m.all == {} && m.previousTime == 0
    modifies m
    ensures m.Valid() && m.timers == [] && cbs == [Some(cb)] && m.previousTime == 10
    ensures forall t :: t in m.all ==> fresh(t)
  {
    hide TimerManager.Valid, Wrap, RolledOver;
    var t := m.AddTimer(10, Some(cb), false, 0, 1);
    WrapSmall(10);
    OnlyOne(m, t);
    RolledOverIff(10, 0);
    ghost var due := m.timers;
    cbs := m.ListExpired(10, 0);
    assert due[..|cbs|] == [t];
    m.Known();
    FirstIn(m.timers);
  }

  lemma FirstIn(ts: seq<Timer>)
    ensures ts != [] ==> ts[0] in ts
  {
  }

  lemma OnlyOne(m: TimerManager, t: Timer)
    requires m.Valid() && t in m.timers && forall s :: s in m.timers ==> s == t
    ensures m.timers == [t]
  {
    hide TimerManager.Members, TimerManager.Handles, TimerManager.History, TimerManager.Paced, TimerManager.Awake;
    forall k | 0 <= k < |m.timers|
      ensures m.timers[k] == t
    {
      assert m.timers[k] in m.timers;
    }
    assert |m.timers| > 1 ==> m.timers[0].Less(m.timers[1]);
  }

  /** Two threads see a timer in the set; the first collects it, the second takes *begin() of an empty set. */
  method EmptiedMeanwhile(cb: Callback) returns (ok: bool)
    ensures !ok
  {
    hide TimerManager.Valid, RolledOver;
    var m := new TimerManager(0);
    var first := CollectOne(m, cb);
    var second;
    RolledOverIff(10, 10);
    ok, second := m.Collect(10, 0);
  }

  /** A period of 2^64 - 1 ms, set at time 1, is over at once. */
  method DueAtOnce(cb: Callback) returns (cbs: seq<Option<Callback>>)
    ensures cbs == [Some(cb)]
  {
    hide TimerManager.Valid, RolledOver, Wrap;
    var m := new TimerManager(1);
    var t := m.AddTimer(MAX64, Some(cb), false, 1, 0);
    DeadlineIff(1, MAX64);
    OnlyOne(m, t);
    RolledOverIff(1, 1);
    cbs := m.ListExpired(1, 0);
  }
}
