/** FiberSemaphore (mutex.cpp): permits, and fibers that wait for one without blocking their worker. */
module FiberSemaphores {
  import opened Prelude
  import opened Fibers
  import opened Schedulers

  class FiberSemaphore {
    const sched: Scheduler
    var concurrency: nat
    var waiters: seq<Fiber>

    /** History: permits at the start, given out, and returned; the fibers that had to wait, and those
        that were handed a permit, in order. */
    ghost const initial: nat
    ghost var grants: nat
    ghost var notifies: nat
    ghost var blocked: seq<Fiber>
    ghost var handed: seq<Fiber>

    ghost predicate Books()
      reads this
    {
      // no permit is lost or made up
      && concurrency + grants == initial + notifies
      // nobody waits while a permit is free
      && (waiters != [] ==> concurrency == 0)
      // permits are handed over in arrival order
      && blocked == handed + waiters
    }

    /** The waiters are exactly the fibers whose wake-up is the semaphore's to give. */
    ghost predicate Keeps()
      reads this`waiters, sched`parked
    {
      multiset(waiters) == Share(sched.parked, this)
    }

    ghost predicate Valid()
      reads this, sched, sched.all, sched.idlers
    {
      sched.Valid() && Books() && Keeps()
    }

    constructor (sched: Scheduler, initial: nat)
      requires sched.Valid()
      ensures Valid() && this.sched == sched && this.initial == initial && concurrency == initial && waiters == []
    {
      this.sched, concurrency, waiters, this.initial := sched, initial, [], initial;
      grants, notifies, blocked, handed := 0, 0, [], [];
      new;
      NothingShared(sched.parked, this);
    }

    method TryWait() returns (ok: bool)
      requires Valid()
      modifies this`concurrency, this`grants
      ensures Valid() && (ok <==> old(concurrency) > 0)
      ensures grants == old(grants) + (if ok then 1 else 0) && concurrency == old(concurrency) - if ok then 1 else 0
    {
      hide Scheduler.Valid;
      if concurrency > 0 {
        concurrency := concurrency - 1;
        grants := grants + 1;
        return true;
      }
      return false;
    }

    /** wait, by the running fiber `caller`, up to the YieldToHold that follows when it has to wait. */
    method Wait(caller: Fiber) returns (mustHold: bool)
      requires Valid() && caller in sched.all && caller.state == EXEC && sched.MayWake(caller)
      modifies this`concurrency, this`waiters, this`grants, this`blocked, sched`parked
      ensures Valid() && (mustHold <==> old(concurrency) == 0)
      ensures if mustHold then waiters == old(waiters) + [caller] && grants == old(grants)
              else waiters == old(waiters) && grants == old(grants) + 1
      ensures concurrency == old(concurrency) - (if mustHold then 0 else 1)
      ensures sched.parked == if mustHold then old(sched.parked)[caller := this] else old(sched.parked)
      ensures Rest(sched.parked, this) == old(Rest(sched.parked, this))
    {
      hide Scheduler.Valid, Scheduler.MayWake, Share, Rest;
      if concurrency > 0 {
        concurrency := concurrency - 1;
        grants := grants + 1;
        return false;
      }
      waiters := waiters + [caller];
      blocked := blocked + [caller];
      sched.Park(caller, this);
      return true;
    }

    /** notify: the permit goes to the first waiter, by way of the queue, or back to the count. */
    method Notify()
      requires Valid()
      modifies this`concurrency, this`waiters, this`grants, this`notifies, this`handed
      modifies sched`fibers, sched`issued, sched`parked
      ensures Valid() && notifies == old(notifies) + 1
      ensures if old(waiters) == []
              then concurrency == old(concurrency) + 1 && waiters == [] && grants == old(grants)
                && sched.fibers == old(sched.fibers)
              else concurrency == old(concurrency) && waiters == old(waiters)[1..] && grants == old(grants) + 1
                   && handed == old(handed) + [old(waiters)[0]]
                   && sched.fibers == old(sched.fibers) + [Task(old(waiters)[0], None, -1)]
      ensures Rest(sched.parked, this) == old(Rest(sched.parked, this))
    {
      hide Scheduler.Valid, Keeps, Share, Rest;
      if waiters == [] {
        concurrency := concurrency + 1;
        notifies := notifies + 1;
        return;
      }
      var next := waiters[0];
      FirstWaiter();
      var need := sched.ScheduleParked(next, this);
      waiters := waiters[1..];
      handed := handed + [next];
      grants := grants + 1;
      notifies := notifies + 1;
      OneLess();
    }

    lemma FirstWaiter()
      requires Keeps() && waiters != []
      ensures waiters[0] in sched.parked && sched.parked[waiters[0]] == this
    {
      hide Share;
      FirstOut(waiters);
      ShareHas(sched.parked, waiters[0], this);
    }

    twostate lemma OneLess()
      requires old(Keeps()) && old(waiters) != [] && waiters == old(waiters)[1..]
      requires Share(sched.parked, this) == old(Share(sched.parked, this)) - multiset{old(waiters)[0]}
      ensures Keeps()
    {
      hide Share;
      FirstOut(old(waiters));
    }

    static lemma FirstOut<T>(s: seq<T>)
      requires s != []
      ensures s == [s[0]] + s[1..] && s[0] in multiset(s) && multiset(s[1..]) == multiset(s) - multiset{s[0]}
    {
      assert s == [s[0]] + s[1..];
    }

    /** A fiber waits at most once at a time, so it is handed one permit for each time it waited. */
    lemma WaitsOnce(i: nat, j: nat)
      requires Valid() && i < j < |waiters|
      ensures waiters[i] != waiters[j]
    {
      hide Scheduler.Valid, Share;
      ShareHas(sched.parked, waiters[i], this);
      Twice(waiters, i, j);
    }

    static lemma Twice<T>(s: seq<T>, i: nat, j: nat)
      requires i < j < |s|
      ensures s[i] == s[j] ==> multiset(s)[s[i]] >= 2
    {
      assert s == s[..i] + [s[i]] + s[i + 1..j] + [s[j]] + s[j + 1..];
    }

    lemma Underlying()
      requires Valid()
      ensures sched.Valid()
    {
    }

    /** Steps of others that leave the semaphore's share alone keep it valid. */
    twostate lemma Beside()
      requires old(Valid()) && sched.Valid() && unchanged(this)
      requires Share(sched.parked, this) == old(Share(sched.parked, this))
      ensures Valid()
    {
      hide Scheduler.Valid, Share;
    }
  }
}
