/** IOManager (iomanager.cpp): event registrations of file descriptors, their wake-ups, and the idle loop
    that turns kernel readiness and expired timers into tickets of the scheduler. */
module IOManagers {
  import opened Prelude
  import opened Fibers
  import opened Schedulers
  import opened Timers

  datatype Event = READ | WRITE

  /** EventContext: who is woken by an event. Empty unless the event is armed. */
  datatype EventContext = EventContext(scheduler: Scheduler?, fiber: Fiber?, cb: Option<Callback>)

  const EMPTY: EventContext := EventContext(null, null, None)

  /** The contents of an FdContext. */
  datatype View = View(read: EventContext, write: EventContext, events: set<Event>) {
    function At(e: Event): EventContext {
      if e == READ then read else write
    }

    function With(e: Event, c: EventContext, mask: set<Event>): (v: View)
      ensures v.At(e) == c && v.events == mask
      ensures forall o: Event :: o != e ==> v.At(o) == At(o)
    {
      if e == READ then View(c, write, mask) else View(read, c, mask)
    }
  }

  const CLOSED: View := View(EMPTY, EMPTY, {})

  class FdContext {
    const fd: nat
    var read: EventContext
    var write: EventContext
    var events: set<Event>

    constructor (fd: nat)
      ensures this.fd == fd && Now() == CLOSED
    {
      this.fd, read, write, events := fd, EMPTY, EMPTY, {};
    }

    function Now(): View
      reads this
    {
      View(read, write, events)
    }

    /** getContext(event) = c, and the new event mask. */
    method Put(e: Event, c: EventContext, mask: set<Event>)
      modifies this
      ensures Now() == old(Now()).With(e, c, mask)
    {
      if e == READ {
        read := c;
      } else {
        write := c;
      }
      events := mask;
    }
  }

  // ----- sums over the descriptors -----

  /** The number of armed directions. */
  function Armed(vs: seq<View>): nat {
    if vs == [] then 0 else Armed(vs[..|vs| - 1]) + |vs[|vs| - 1].events|
  }

  function FiberOf(c: EventContext): multiset<Fiber> {
    if c.fiber == null then multiset{} else multiset{c.fiber}
  }

  /** The fiber a context wakes, if it is one. */
  function Sleepers(c: EventContext): set<Fiber> {
    if c.fiber == null then {} else {c.fiber}
  }

  function FibersOf(v: View): multiset<Fiber> {
    FiberOf(v.read) + FiberOf(v.write)
  }

  lemma WithFibers(v: View, e: Event, c: EventContext, mask: set<Event>)
    ensures FibersOf(v) == FiberOf(v.At(e)) + FiberOf(v.At(if e == READ then WRITE else READ))
    ensures FibersOf(v.With(e, c, mask)) == FiberOf(c) + FiberOf(v.At(if e == READ then WRITE else READ))
    ensures v.At(e) == EMPTY ==> FibersOf(v.With(e, c, mask)) == FibersOf(v) + FiberOf(c)
    ensures c == EMPTY ==> FibersOf(v) == FibersOf(v.With(e, c, mask)) + FiberOf(v.At(e))
  {
    assert FiberOf(EMPTY) == multiset{};
    hide FiberOf;
    Parts(FiberOf(v.At(e)), FiberOf(v.At(if e == READ then WRITE else READ)), FiberOf(c));
  }

  lemma Parts<T>(a: multiset<T>, b: multiset<T>, n: multiset<T>)
    ensures a + b == b + a && n + b == b + n
    ensures a == multiset{} ==> n + b == (a + b) + n
    ensures n == multiset{} ==> a + b == (n + b) + a
  {
  }

  /** Exchanging a part of a sum for one that is smaller by x. */
  lemma SwapPart<T>(all: multiset<T>, part: multiset<T>, rest: multiset<T>, x: multiset<T>)
    requires part <= all
    ensures part == rest + x ==> all - part + rest == all - x
    ensures rest == part + x ==> all - part + rest == all + x
  {
  }

  /** The fibers whose wake-up an armed event holds. */
  function Waiting(vs: seq<View>): multiset<Fiber> {
    if vs == [] then multiset{} else Waiting(vs[..|vs| - 1]) + FibersOf(vs[|vs| - 1])
  }

  lemma {:induction false} ArmedUpdate(vs: seq<View>, i: nat, v: View)
    requires i < |vs|
    ensures Armed(vs[i := v]) + |vs[i].events| == Armed(vs) + |v.events|
  {
    var last := |vs| - 1;
    if i == last {
      assert vs[i := v][..last] == vs[..last];
    } else {
      ArmedUpdate(vs[..last], i, v);
      assert vs[i := v][..last] == vs[..last][i := v];
    }
  }

  lemma {:induction false} WaitingIncludes(vs: seq<View>, i: nat)
    requires i < |vs|
    ensures FibersOf(vs[i]) <= Waiting(vs)
  {
    hide FibersOf;
    if i < |vs| - 1 {
      WaitingIncludes(vs[..|vs| - 1], i);
    }
  }

  lemma {:induction false} WaitingUpdate(vs: seq<View>, i: nat, v: View)
    requires i < |vs|
    ensures FibersOf(vs[i]) <= Waiting(vs)
    ensures Waiting(vs[i := v]) == Waiting(vs) - FibersOf(vs[i]) + FibersOf(v)
  {
    hide FibersOf;
    WaitingIncludes(vs, i);
    var last := |vs| - 1;
    if i == last {
      assert vs[i := v][..last] == vs[..last];
    } else {
      WaitingIncludes(vs[..last], i);
      WaitingUpdate(vs[..last], i, v);
      assert vs[i := v][..last] == vs[..last][i := v];
    }
  }

  lemma {:induction false} NoneWaiting(vs: seq<View>)
    requires Armed(vs) == 0
    ensures forall i :: 0 <= i < |vs| ==> vs[i].events == {}
  {
    if vs != [] {
      NoneWaiting(vs[..|vs| - 1]);
    }
  }

  lemma PushClosed(vs: seq<View>)
    ensures Armed(vs + [CLOSED]) == Armed(vs) && Waiting(vs + [CLOSED]) == Waiting(vs)
  {
    assert (vs + [CLOSED])[..|vs|] == vs;
  }

  predicate Closed(v: View) {
    v == CLOSED
  }

  lemma {:induction false} ClosedTail(vs: seq<View>, n: nat)
    requires n <= |vs| && forall i :: n <= i < |vs| ==> Closed(vs[i])
    ensures Armed(vs[..n]) == Armed(vs) && Waiting(vs[..n]) == Waiting(vs)
  {
    hide Armed, Waiting;
    if n == |vs| {
      assert vs[..n] == vs;
    } else {
      var rest := vs[..|vs| - 1];
      ClosedTail(rest, n);
      assert rest[..n] == vs[..n];
      assert Closed(vs[|vs| - 1]) && vs == rest + [CLOSED];
      PushClosed(rest);
    }
  }

  /** EPOLL_CTL_ADD, EPOLL_CTL_MOD, EPOLL_CTL_DEL. */
  datatype Op = Add | Mod | Del

  /** The contents of a context, closed if there is none yet. */
  function ViewAt(vs: seq<View>, fd: nat): View {
    if fd < |vs| then vs[fd] else CLOSED
  }

  /** Who is woken by a registration, on the scheduler of the calling thread, if it has one: a function, or
      without one the fiber that registers. */
  function Registrant(mine: Scheduler?, cb: Option<Callback>, caller: Fiber): EventContext {
    EventContext(mine, if cb.None? then caller else null, cb)
  }

  datatype AddResult = Added | Refused | Aborted

  /** The queue entry that an armed context turns into. */
  function WakeUp(c: EventContext): Task {
    Task(c.fiber, c.cb, -1)
  }

  predicate Armable(fd: nat, e: Event, vs: seq<View>) {
    fd < |vs| && e in vs[fd].events
  }

  /** The wake-ups of several directions, reading first. */
  function WakeUps(v: View, es: set<Event>): seq<Task> {
    (if READ in es then [WakeUp(v.read)] else []) + (if WRITE in es then [WakeUp(v.write)] else [])
  }

  function HowMany(es: set<Event>): nat {
    (if READ in es then 1 else 0) + (if WRITE in es then 1 else 0)
  }

  function Pairs(fd: nat, es: set<Event>): set<(nat, Event)> {
    (if READ in es then {(fd, READ)} else {}) + (if WRITE in es then {(fd, WRITE)} else {})
  }

  /** The numbers of the registrations of some directions. */
  function Numbers(armed: map<(nat, Event), nat>, fd: nat, es: set<Event>): set<nat> {
    (if READ in es && (fd, READ) in armed then {armed[(fd, READ)]} else {})
    + (if WRITE in es && (fd, WRITE) in armed then {armed[(fd, WRITE)]} else {})
  }

  /** The contents of a context after some of its directions have been triggered. */
  function Cleared(v: View, es: set<Event>): View {
    View(if READ in es then EMPTY else v.read, if WRITE in es then EMPTY else v.write, v.events - es)
  }

  lemma NothingCleared(vs: seq<View>, fd: nat)
    ensures fd < |vs| ==> vs[fd := Cleared(vs[fd], {})] == vs
  {
    assert fd < |vs| ==> Cleared(vs[fd], {}) == vs[fd];
  }

  lemma ClearedByOne(v: View, asked: set<Event>)
    ensures var u := if READ in asked && READ in v.events then v.With(READ, EMPTY, v.events - {READ}) else v;
            var w := if WRITE in asked && WRITE in u.events then u.With(WRITE, EMPTY, u.events - {WRITE}) else u;
            w == Cleared(v, v.events * asked)
  {
    TwoEvents(v.events, v.events * asked);
  }

  /** Which directions one report triggers, given the contexts it meets. */
  function Answered(vs: seq<View>, r: Report): set<Event> {
    if r.Tickle? || r.fd >= |vs| || r.refuse || vs[r.fd].events * Real(r.reported, r.broken) == {} then {}
    else Real(r.reported, r.broken)
  }

  /** Whether the assertion in triggerEvent holds for it. */
  predicate Sound(vs: seq<View>, r: Report) {
    r.Ready? && r.fd < |vs| ==> Answered(vs, r) <= vs[r.fd].events
  }

  function After(vs: seq<View>, r: Report): (us: seq<View>)
    ensures |us| == |vs|
  {
    if r.Ready? && r.fd < |vs| then vs[r.fd := Cleared(vs[r.fd], Answered(vs, r))] else vs
  }

  function Wakes(vs: seq<View>, r: Report): seq<Task> {
    if r.Ready? && r.fd < |vs| then WakeUps(vs[r.fd], Answered(vs, r)) else []
  }

  /** The same for all reports of one wait, in order. */
  function AfterAll(vs: seq<View>, rs: seq<Report>): (us: seq<View>)
    ensures |us| == |vs|
  {
    if rs == [] then vs else After(AfterAll(vs, rs[..|rs| - 1]), rs[|rs| - 1])
  }

  function WakesAll(vs: seq<View>, rs: seq<Report>): seq<Task> {
    if rs == [] then []
    else WakesAll(vs, rs[..|rs| - 1]) + Wakes(AfterAll(vs, rs[..|rs| - 1]), rs[|rs| - 1])
  }

  predicate AllSound(vs: seq<View>, rs: seq<Report>) {
    forall i :: 0 <= i < |rs| ==> Sound(AfterAll(vs, rs[..i]), rs[i])
  }

  lemma NoReports(vs: seq<View>, rs: seq<Report>)
    ensures AfterAll(vs, rs[..0]) == vs && WakesAll(vs, rs[..0]) == []
  {
  }

  /** One report in the terms of its descriptor. */
  lemma ReportMeans(vs: seq<View>, r: Report)
    ensures r.Tickle? ==> Sound(vs, r) && After(vs, r) == vs && Wakes(vs, r) == []
    ensures r.Ready? && r.fd < |vs| ==>
              var actual := Real(r.reported, r.broken);
              var events := vs[r.fd].events;
              && (Sound(vs, r) <==> r.refuse || events * actual == {} || actual <= events)
              && After(vs, r) ==
                 (if r.refuse || events * actual == {} then vs else vs[r.fd := Cleared(vs[r.fd], actual)])
              && Wakes(vs, r) == (if r.refuse || events * actual == {} then [] else WakeUps(vs[r.fd], actual))
  {
    if r.Ready? && r.fd < |vs| {
      assert Cleared(vs[r.fd], {}) == vs[r.fd];
    }
  }

  lemma OneMoreReport(vs: seq<View>, rs: seq<Report>, i: nat)
    requires i < |rs|
    ensures AfterAll(vs, rs[..i + 1]) == After(AfterAll(vs, rs[..i]), rs[i])
    ensures WakesAll(vs, rs[..i + 1]) == WakesAll(vs, rs[..i]) + Wakes(AfterAll(vs, rs[..i]), rs[i])
  {
    assert rs[..i + 1][..i] == rs[..i];
  }

  /** A set of events is told by its two members. */
  lemma TwoEvents(es: set<Event>, asked: set<Event>)
    ensures es - asked == es - (if READ in asked then {READ} else {}) - (if WRITE in asked then {WRITE} else {})
    ensures es <= {READ, WRITE} && (READ !in es && WRITE !in es <==> es == {})
    ensures asked == {READ, WRITE} ==> es * asked == es
  {
    forall e | e in es
      ensures e in {READ, WRITE}
    {
      assert e == READ || e == WRITE;
    }
  }

  /** One entry of epoll_wait's result. */
  datatype Report = Tickle | Ready(fd: nat, reported: set<Event>, broken: bool, refuse: bool)

  /** What the registration of a direction was made to queue, if there is one. */
  function Asked(armed: map<(nat, Event), nat>, asked: map<nat, Task>, fd: nat, e: Event): seq<Task> {
    if (fd, e) in armed && armed[(fd, e)] in asked then [asked[armed[(fd, e)]]] else []
  }

  /** EPOLLERR and EPOLLHUP stand for both directions. */
  function Real(reported: set<Event>, broken: bool): set<Event> {
    if broken then {READ, WRITE} else reported
  }

  lemma RealIff(reported: set<Event>, broken: bool, e: Event)
    ensures e in Real(reported, broken) <==> broken || e in reported
  {
    assert e == READ || e == WRITE;
  }

  /** The armed directions of a descriptor are those with a registration, and queue what it asked. */
  predicate Registration(v: View, armed: map<(nat, Event), nat>, asked: map<nat, Task>, fd: nat) {
    forall e: Event ::
      if e in v.events
      then (fd, e) in armed && armed[(fd, e)] in asked && WakeUp(v.At(e)) == asked[armed[(fd, e)]]
      else (fd, e) !in armed
  }

  /** What a sound report that is not refused means for the two directions. */
  lemma Served(v: View, armed: map<(nat, Event), nat>, asked: map<nat, Task>, fd: nat, reported: set<Event>,
               broken: bool)
    requires Registration(v, armed, asked, fd)
    requires v.events * Real(reported, broken) == {} || Real(reported, broken) <= v.events
    ensures var es := v.events * Real(reported, broken);
            && (forall e: Event ::
                  if e in v.events && (broken || e in reported)
                  then && e !in Cleared(v, es).events && (fd, e) in armed && armed[(fd, e)] in Numbers(armed, fd, es)
                       && |Asked(armed, asked, fd, e)| == 1
                  else && (e in Cleared(v, es).events <==> e in v.events) && Cleared(v, es).At(e) == v.At(e))
            && WakeUps(v, es) == (if broken || READ in reported then Asked(armed, asked, fd, READ) else [])
                                 + (if broken || WRITE in reported then Asked(armed, asked, fd, WRITE) else [])
            && (es == {} ==> Cleared(v, es) == v && WakeUps(v, es) == [])
            && (es == {} || es == Real(reported, broken))
  {
    forall e: Event
      ensures (e == READ || e == WRITE) && (e in Real(reported, broken) <==> broken || e in reported)
    {
      RealIff(reported, broken, e);
    }
  }

  /** A report that reaches the registration of a direction. */
  predicate Covers(r: Report, k: (nat, Event)) {
    r.Ready? && !r.refuse && r.fd == k.0 && (r.broken || k.1 in r.reported)
  }

  predicate Covered(reports: seq<Report>, k: (nat, Event)) {
    exists r :: r in reports && Covers(r, k)
  }

  lemma CoveredMore(a: seq<Report>, b: seq<Report>)
    ensures forall k :: Covered(a + b, k) <==> Covered(a, k) || Covered(b, k)
  {
    hide Covers;
    forall k | Covered(a, k) || Covered(b, k)
      ensures Covered(a + b, k)
    {
      var r :| (r in a || r in b) && Covers(r, k);
      assert r in a + b;
    }
  }

  /** What became of the registrations: those that were hit are woken and what they asked is queued, the others
      are armed as before. */
  ghost predicate Settled(before: map<(nat, Event), nat>, reports: seq<Report>, armed: map<(nat, Event), nat>,
                          woken: set<nat>, asked: map<nat, Task>, queued: seq<Task>)
  {
    forall k :: k in before ==>
      if Covered(reports, k)
      then k !in armed && before[k] in woken && before[k] in asked && asked[before[k]] in queued
      else k in armed && armed[k] == before[k]
  }

  lemma SettledOne(v: View, armed: map<(nat, Event), nat>, asked: map<nat, Task>, r: Report, woken: set<nat>)
    requires r.Ready? && Registration(v, armed, asked, r.fd)
    requires r.refuse || v.events * Real(r.reported, r.broken) == {} || Real(r.reported, r.broken) <= v.events
    ensures var es := if r.refuse then {} else v.events * Real(r.reported, r.broken);
            && Settled(armed, [r], armed - Pairs(r.fd, es), woken + Numbers(armed, r.fd, es), asked,
                       WakeUps(v, es))
            && (es == {} ==> armed - Pairs(r.fd, es) == armed && woken + Numbers(armed, r.fd, es) == woken)
  {
    forall e: Event
      ensures (e == READ || e == WRITE) && (e in Real(r.reported, r.broken) <==> r.broken || e in r.reported)
    {
      RealIff(r.reported, r.broken, e);
    }
    forall k
      ensures Covered([r], k) <==> Covers(r, k)
    {
      assert r in [r];
    }
  }

  lemma NothingNumbered(v: View, armed: map<(nat, Event), nat>, fd: nat)
    ensures WakeUps(v, {}) == [] && armed - Pairs(fd, {}) == armed && Numbers(armed, fd, {}) == {}
  {
  }

  lemma SettledMore(start: map<(nat, Event), nat>, a: seq<Report>, now: map<(nat, Event), nat>, woken: set<nat>,
                    queued: seq<Task>, b: seq<Report>, next: map<(nat, Event), nat>, woken': set<nat>,
                    tail: seq<Task>, asked: map<nat, Task>)
    requires Settled(start, a, now, woken, asked, queued) && Settled(now, b, next, woken', asked, tail)
    requires woken <= woken' && forall k :: k in next ==> k in now
    ensures Settled(start, a + b, next, woken', asked, queued + tail)
  {
    hide Covered;
    CoveredMore(a, b);
  }

  lemma OneEach(v: View, es: set<Event>)
    ensures |WakeUps(v, es)| == HowMany(es) && HowMany({}) == 0
  {
  }

  lemma SettledNone(armed: map<(nat, Event), nat>, woken: set<nat>, asked: map<nat, Task>)
    ensures Settled(armed, [], armed, woken, asked, [])
  {
  }

  lemma SettledTickle(armed: map<(nat, Event), nat>, woken: set<nat>, asked: map<nat, Task>)
    ensures Settled(armed, [Tickle], armed, woken, asked, [])
  {
  }

  lemma BothAsked(v: View, armed: map<(nat, Event), nat>, asked: map<nat, Task>, fd: nat)
    requires Registration(v, armed, asked, fd)
    ensures WakeUps(v, v.events) == Asked(armed, asked, fd, READ) + Asked(armed, asked, fd, WRITE)
    ensures armed - Pairs(fd, v.events) == armed - {(fd, READ), (fd, WRITE)}
    ensures v.events == {} ==> WakeUps(v, v.events) == [] && armed - {(fd, READ), (fd, WRITE)} == armed
  {
    assert READ in v.events <==> (fd, READ) in armed;
    assert WRITE in v.events <==> (fd, WRITE) in armed;
  }

  lemma Reported(events: set<Event>, reported: set<Event>, broken: bool)
    ensures events * Real(reported, broken) == {} <==> forall e: Event :: e in events ==> !broken && e !in reported
    ensures Real(reported, broken) <= events <==> forall e: Event :: broken || e in reported ==> e in events
  {
    forall e: Event
      ensures e in Real(reported, broken) <==> broken || e in reported
    {
      RealIff(reported, broken, e);
    }
    var both := events * Real(reported, broken);
    if forall e: Event :: e in events ==> !broken && e !in reported {
      assert forall e: Event :: e !in both;
      assert both == {};
    }
    forall e | both == {} && e in events
      ensures !broken && e !in reported
    {
      assert e !in both;
    }
  }

  /** The timeout handed to epoll_wait, with the conversions to int that the code makes. */
  function EpollTimeout(next: U64): int {
    if next == MAX64 then 3000
    else if ToInt(next) > 3000 then 3000
    else ToInt(next)
  }

  /** (int) of a uint64_t. */
  function ToInt(n: nat): int {
    if n % 0x1_0000_0000 < 0x8000_0000 then n % 0x1_0000_0000 else n % 0x1_0000_0000 - 0x1_0000_0000
  }

  /** The wait is bounded by three seconds exactly when the low 32 bits of the remaining time are below
      2^31; otherwise the timeout is negative and the wait unbounded. A bounded wait never passes the
      next deadline. */
  lemma EpollTimeoutIff(next: U64)
    ensures 0 <= EpollTimeout(next) <= 3000 <==> next == MAX64 || next % 0x1_0000_0000 < 0x8000_0000
    ensures EpollTimeout(next) <= next
  {
  }

  /** It is the remaining time, or three seconds if that is less, exactly if the low 32 bits are not taken for
      a short time by themselves, nor for a negative one. */
  lemma EpollTimeoutExact(next: U64)
    ensures EpollTimeout(next) == (if next < 3000 then next else 3000) <==>
            next == MAX64 || next < 3000 || 3000 <= next % 0x1_0000_0000 < 0x8000_0000
    ensures 0 <= EpollTimeout(next) < 3000 ==> EpollTimeout(next) == next % 0x1_0000_0000
  {
  }

  /** With 2^32 milliseconds to the next deadline the worker does not wait at all. */
  lemma NoWait()
    ensures EpollTimeout(0x1_0000_0000) == 0
  {
  }

  /** 2^31 milliseconds to the next deadline give a negative timeout, that is no timeout at all. */
  lemma WaitUnbounded()
    ensures EpollTimeout(0x8000_0000) == -0x8000_0000
  {
  }

  class IOManager {
    const sched: Scheduler
    const timers: TimerManager
    var contexts: seq<FdContext>
    var pending: nat

    /** The contents of the contexts, and the interest list of the epoll instance. */
    ghost var views: seq<View>
    ghost var kernel: map<nat, set<Event>>

    /** Registrations: every successful addEvent gets a number; it is armed, or its wake-up has been put
        on the queue, or it has been deleted. */
    ghost var serial: nat
    ghost var armed: map<(nat, Event), nat>
    ghost var woken: set<nat>
    ghost var deleted: set<nat>
    /** What each registration was made to queue: the given function, or without one the registering fiber. */
    ghost var asked: map<nat, Task>

    ghost predicate Layout()
      reads this`contexts, this`views, contexts
    {
      && |views| == |contexts|
      && (forall i {:trigger contexts[i].fd} :: 0 <= i < |contexts| ==> contexts[i].fd == i)
      && (forall i :: 0 <= i < |contexts| ==> contexts[i].Now() == views[i])
      && (forall i, j :: 0 <= i < j < |contexts| ==> contexts[i] != contexts[j])
    }

    /** A direction is armed exactly when its context names a scheduler and exactly one of a fiber and a
        function; otherwise its context is empty. */
    ghost predicate Exact(v: View) {
      forall e: Event ::
        if e in v.events then v.At(e).scheduler == sched && (v.At(e).fiber == null <==> v.At(e).cb.Some?)
        else v.At(e) == EMPTY
    }

    ghost predicate AllExact()
      reads this`views
    {
      forall i :: 0 <= i < |views| ==> Exact(views[i])
    }

    /** The counter is exact, and the fibers of armed events are exactly those parked by this manager. */
    ghost predicate Counted()
      reads this`views, this`pending, sched`parked
    {
      pending == Armed(views) && Waiting(views) == Share(sched.parked, this)
    }

    /** The kernel's interest is the event mask. */
    ghost predicate Interest()
      reads this`views, this`kernel
    {
      && (forall fd: nat :: fd in kernel <==> fd < |views| && views[fd].events != {})
      && (forall fd: nat :: fd in kernel ==> kernel[fd] == views[fd].events)
    }

    /** An armed direction has its own registration, and its context holds what that was made to queue. */
    ghost predicate Located()
      reads this`views, this`armed, this`asked
    {
      && (forall fd: nat, e: Event :: (fd, e) in armed <==> fd < |views| && e in views[fd].events)
      && (forall k :: k in armed ==>
          k.0 < |views| && armed[k] in asked && WakeUp(views[k.0].At(k.1)) == asked[armed[k]])
    }

    /** Every registration so far is in exactly one of the three places. */
    ghost predicate Partitioned()
      reads this`serial, this`armed, this`woken, this`deleted
    {
      && (forall k, l :: k in armed && l in armed && armed[k] == armed[l] ==> k == l)
      && (forall k :: k in armed ==> armed[k] < serial && armed[k] !in woken && armed[k] !in deleted)
      && (forall n: nat :: n in woken ==> n < serial && n !in deleted)
      && (forall n: nat :: n in deleted ==> n < serial)
      && (forall n: nat :: n < serial && n !in woken && n !in deleted ==> exists k :: k in armed && armed[k] == n)
    }

    ghost predicate Registered()
      reads this`views, this`serial, this`armed, this`woken, this`deleted, this`asked
    {
      Located() && Partitioned()
    }

    ghost predicate Valid()
      reads this, contexts, sched, sched.all, sched.idlers
    {
      sched.Valid() && |contexts| >= 32 && Layout() && AllExact() && Counted() && Interest() && Registered()
    }

    /** The constructor, without starting the threads. */
    constructor (sched: Scheduler, timers: TimerManager)
      requires sched.Valid()
      ensures Valid() && this.sched == sched && this.timers == timers && |contexts| == 32 && pending == 0
      ensures fresh(contexts) && serial == 0 && |views| == 32 && forall fd :: 0 <= fd < 32 ==> views[fd] == CLOSED
    {
      this.sched, this.timers, contexts, pending := sched, timers, [], 0;
      views, kernel, serial, armed, woken, deleted, asked := [], map[], 0, map[], {}, {}, map[];
      new;
      hide Scheduler.Valid, Layout, AllExact, Counted, Interest, Registered, Share;
      NothingShared(sched.parked, this);
      Unused();
      Resize(32);
    }

    lemma Unused()
      requires contexts == [] && views == [] && pending == serial == 0 && kernel == map[] && armed == map[]
               && asked == map[]
      requires woken == deleted == {} && Share(sched.parked, this) == multiset{}
      ensures Kept()
    {
    }

    /** The bookkeeping without the size of the table. */
    ghost predicate Kept()
      reads this, contexts, sched`parked
    {
      Layout() && AllExact() && Counted() && Interest() && Registered()
    }

    /** contextResize: new contexts are closed, and those beyond a smaller size are forgotten. The
        bookkeeping survives exactly if nothing of what is forgotten is armed. */
    method Resize(size: nat)
      requires Kept()
      modifies this`contexts, this`views
      ensures |contexts| == |views| == size
      ensures forall i :: 0 <= i < size ==> views[i] == ViewAt(old(views), i)
      ensures forall i :: 0 <= i < size && i < |old(contexts)| ==> contexts[i] == old(contexts)[i]
      ensures forall i :: |old(contexts)| <= i < size ==> fresh(contexts[i])
      ensures Kept() <==> forall i :: size <= i < |old(views)| ==> old(views)[i].events == {}
    {
      hide Layout, AllExact, Counted, Interest, Registered;
      LayoutLength();
      if size < |contexts| {
        Shrink(size);
      } else {
        Grow(size);
      }
    }

    method Shrink(size: nat)
      requires Kept() && size <= |contexts|
      modifies this`contexts, this`views
      ensures contexts == old(contexts)[..size] && |old(views)| == |old(contexts)| && views == old(views)[..size]
      ensures Kept() <==> forall i :: size <= i < |old(views)| ==> old(views)[i].events == {}
    {
      LayoutLength();
      contexts := contexts[..size];
      views := views[..size];
      if forall i :: size <= i < |old(views)| ==> old(views)[i].events == {} {
        ShrunkKept(size);
      } else {
        ShrunkBroken(size);
      }
    }

    /** Closed contexts are not missed. */
    twostate lemma ShrunkKept(new size: nat)
      requires old(Kept()) && size <= |old(contexts)| && contexts == old(contexts)[..size]
               && views == old(views)[..size]
      requires forall i :: size <= i < |old(views)| ==> old(views)[i].events == {}
      requires unchanged(old(contexts)) && sched.parked == old(sched.parked)
               && unchanged(this`pending, this`kernel, this`serial)
      requires armed == old(armed) && woken == old(woken) && deleted == old(deleted) && asked == old(asked)
      ensures Kept()
    {
      hide Armed, Waiting, Interest, Registered;
      forall i | size <= i < |old(views)|
        ensures Closed(old(views)[i])
      {
        assert old(Exact(views[i]));
        ExactClosed(old(views)[i]);
      }
      ClosedTail(old(views), size);
      ShrunkMaps(size);
    }

    twostate lemma ShrunkMaps(new size: nat)
      requires old(Interest() && Registered()) && size <= |old(views)| && views == old(views)[..size]
      requires forall i :: size <= i < |old(views)| ==> old(views)[i].events == {}
      requires kernel == old(kernel) && serial == old(serial)
      requires armed == old(armed) && woken == old(woken) && deleted == old(deleted) && asked == old(asked)
      ensures Interest() && Registered()
    {
    }

    lemma ExactClosed(v: View)
      requires Exact(v) && v.events == {}
      ensures Closed(v)
    {
      assert v.At(READ) == EMPTY && v.At(WRITE) == EMPTY;
    }

    /** An armed event of a context that is gone is counted but cannot be found any more. */
    twostate lemma ShrunkBroken(new size: nat)
      requires old(Kept()) && size <= |old(contexts)| && views == old(views)[..size] && armed == old(armed)
      requires exists i :: size <= i < |old(views)| && old(views)[i].events != {}
      ensures !Kept()
    {
      hide Layout, AllExact, Counted, Interest;
      var i :| size <= i < |old(views)| && old(views)[i].events != {};
      var e :| e in old(views)[i].events;
      assert (i, e) in old(armed);
      assert i >= |views|;
    }

    method Grow(size: nat)
      requires |contexts| <= size
      requires Kept()
      modifies this`contexts, this`views
      ensures Kept() && |contexts| == |views| == size && old(contexts) <= contexts && old(views) <= views
      ensures |old(views)| == |old(contexts)|
      ensures forall i :: |old(contexts)| <= i < size ==> fresh(contexts[i]) && views[i] == CLOSED
    {
      hide Layout, AllExact, Counted, Interest, Registered;
      LayoutLength();
      while |contexts| < size
        invariant |contexts| <= size && |views| == |contexts|
        invariant Kept()
        invariant old(contexts) <= contexts && old(views) <= views
        invariant forall i :: |old(contexts)| <= i < |contexts| ==> fresh(contexts[i]) && views[i] == CLOSED
        decreases size - |contexts|
      {
        AddContext();
      }
    }

    lemma LayoutLength()
      requires Layout()
      ensures |views| == |contexts|
    {
    }

    method AddContext()
      requires Layout() && AllExact() && Counted() && Interest() && Registered()
      modifies this`contexts, this`views
      ensures Layout() && AllExact() && Counted() && Interest() && Registered()
      ensures |contexts| == |old(contexts)| + 1 == |views| && old(contexts) <= contexts && old(views) <= views
      ensures fresh(contexts[|contexts| - 1]) && views[|contexts| - 1] == CLOSED
    {
      hide AllExact, Interest, Registered, Armed, Waiting;
      var c := new FdContext(|contexts|);
      PushClosed(views);
      contexts := contexts + [c];
      views := views + [CLOSED];
      ContextAdded();
    }

    twostate lemma ContextAdded()
      requires views == old(views) + [CLOSED] && kernel == old(kernel) && serial == old(serial)
      requires armed == old(armed) && woken == old(woken) && deleted == old(deleted) && asked == old(asked)
      requires old(AllExact() && Interest() && Registered())
      ensures AllExact() && Interest() && Registered()
    {
      forall fd: nat, e: Event | fd < |views| && e in views[fd].events
        ensures fd < |old(views)| && e in old(views)[fd].events
      {
      }
    }

    /** epoll_ctl, which the kernel may refuse for reasons of its own. That the operation is the legal
        one for the descriptor is an obligation of the caller. */
    method EpollCtl(op: Op, fd: nat, mask: set<Event>, refuse: bool) returns (rt: int)
      requires op == Add <==> fd !in kernel
      modifies this`kernel
      ensures rt == if refuse then -1 else 0
      ensures kernel == if refuse then old(kernel)
                        else if op == Del then old(kernel) - {fd}
                        else old(kernel)[fd := mask]
    {
      if refuse {
        return -1;
      }
      kernel := if op == Del then kernel - {fd} else kernel[fd := mask];
      return 0;
    }

    /** Changing one direction of one descriptor, in the contexts and in the views. */
    method Put(fd: nat, e: Event, c: EventContext, mask: set<Event>)
      requires Layout() && fd < |contexts|
      modifies this`views, contexts[fd]
      ensures Layout() && contexts == old(contexts) && views == old(views)[fd := old(views)[fd].With(e, c, mask)]
    {
      hide View.With;
      contexts[fd].Put(e, c, mask);
      views := views[fd := views[fd].With(e, c, mask)];
    }

    // ----- one registration -----

    /** What the bookkeeping says of one direction. */
    lemma At(fd: nat, e: Event)
      requires Layout() && AllExact() && Registered() && fd < |contexts|
      ensures contexts[fd].Now() == views[fd] && contexts[fd].fd == fd
      ensures e in views[fd].events ==>
                && views[fd].At(e).scheduler == sched
                && (views[fd].At(e).fiber == null <==> views[fd].At(e).cb.Some?)
                && (fd, e) in armed && armed[(fd, e)] !in woken && armed[(fd, e)] !in deleted
                && armed[(fd, e)] in asked && WakeUp(views[fd].At(e)) == asked[armed[(fd, e)]]
      ensures e !in views[fd].events ==> views[fd].At(e) == EMPTY && (fd, e) !in armed
    {
      assert Exact(views[fd]);
    }

    lemma Masked(fd: nat)
      requires Interest() && fd < |views|
      ensures fd in kernel <==> views[fd].events != {}
      ensures fd in kernel ==> kernel[fd] == views[fd].events
    {
    }

    /** After one descriptor's mask and interest have been set to the same value. */
    twostate lemma InterestMoved(new fd: nat)
      requires old(Interest()) && fd < |views| == |old(views)|
      requires forall g :: 0 <= g < |views| && g != fd ==> views[g] == old(views)[g]
      requires kernel == if views[fd].events == {} then old(kernel) - {fd} else old(kernel)[fd := views[fd].events]
      ensures Interest()
    {
      forall g: nat
        ensures g in kernel <==> g < |views| && views[g].events != {}
        ensures g in kernel ==> kernel[g] == views[g].events
      {
        assert g < |views| ==> (g in old(kernel) <==> old(views)[g].events != {});
      }
    }

    /** One descriptor's view changes in one direction, and is exact again. */
    twostate lemma ExactMoved(new fd: nat, new e: Event)
      requires old(AllExact()) && fd < |views| == |old(views)|
      requires forall g :: 0 <= g < |views| && g != fd ==> views[g] == old(views)[g]
      requires forall o: Event :: o != e ==>
                views[fd].At(o) == old(views)[fd].At(o) && (o in views[fd].events <==> o in old(views)[fd].events)
      requires if e in views[fd].events
               then views[fd].At(e).scheduler == sched && (views[fd].At(e).fiber == null <==> views[fd].At(e).cb.Some?)
               else views[fd].At(e) == EMPTY
      ensures AllExact()
    {
      hide View.At;
      assert old(Exact(views[fd]));
      assert Exact(views[fd]);
      forall g | 0 <= g < |views|
        ensures Exact(views[g])
      {
        assert old(Exact(views[g]));
      }
    }

    /** The registration of a direction. */
    twostate lemma RegisteredAdd(new fd: nat, new e: Event)
      requires old(Registered()) && fd < |views| == |old(views)| && e !in old(views)[fd].events
      requires forall g :: 0 <= g < |views| && g != fd ==> views[g] == old(views)[g]
      requires views[fd].events == old(views)[fd].events + {e}
      requires forall o: Event :: o != e ==> views[fd].At(o) == old(views)[fd].At(o)
      requires serial == old(serial) + 1 && armed == old(armed)[(fd, e) := old(serial)]
      requires woken == old(woken) && deleted == old(deleted)
      requires asked == old(asked)[old(serial) := WakeUp(views[fd].At(e))]
      ensures Registered()
    {
      hide View.At;
      PartitionedAdd((fd, e));
      LocatedAdd(fd, e);
    }

    twostate lemma LocatedAdd(new fd: nat, new e: Event)
      requires old(Located()) && fd < |views| == |old(views)| && forall k :: k in old(armed) ==>
                old(armed)[k] < old(serial)
      requires forall g :: 0 <= g < |views| && g != fd ==> views[g] == old(views)[g]
      requires views[fd].events == old(views)[fd].events + {e}
      requires forall o: Event :: o != e ==> views[fd].At(o) == old(views)[fd].At(o)
      requires armed == old(armed)[(fd, e) := old(serial)]
               && asked == old(asked)[old(serial) := WakeUp(views[fd].At(e))]
      ensures Located()
    {
      hide View.At;
    }

    twostate lemma PartitionedAdd(new at: (nat, Event))
      requires old(Partitioned()) && at !in old(armed)
      requires serial == old(serial) + 1 && armed == old(armed)[at := old(serial)]
      requires woken == old(woken) && deleted == old(deleted)
      ensures Partitioned()
    {
      forall n: nat | n < serial && n !in woken && n !in deleted
        ensures exists k :: k in armed && armed[k] == n
      {
        if n == old(serial) {
          assert at in armed && armed[at] == n;
        } else {
          var k :| k in old(armed) && old(armed)[k] == n;
          assert k in armed && armed[k] == n;
        }
      }
    }

    /** The end of a registration. */
    twostate lemma RegisteredRemove(new fd: nat, new e: Event)
      requires old(Registered()) && fd < |views| == |old(views)| && e in old(views)[fd].events
      requires forall g :: 0 <= g < |views| && g != fd ==> views[g] == old(views)[g]
      requires views[fd].events == old(views)[fd].events - {e}
      requires forall o: Event :: o != e ==> views[fd].At(o) == old(views)[fd].At(o)
      requires asked == old(asked)
      requires serial == old(serial) && (fd, e) in old(armed) && armed == old(armed) - {(fd, e)}
      requires var n := old(armed)[(fd, e)];
               (woken == old(woken) + {n} && deleted == old(deleted)) || (woken == old(woken)
                 && deleted == old(deleted) + {n})
      ensures Registered()
    {
      hide View.At;
      PartitionedRemove((fd, e));
      assert Located() by {
        hide Partitioned;
      }
    }

    twostate lemma PartitionedRemove(new gone: (nat, Event))
      requires old(Partitioned()) && gone in old(armed) && armed == old(armed) - {gone} && serial == old(serial)
      requires var n := old(armed)[gone];
               (woken == old(woken) + {n} && deleted == old(deleted)) || (woken == old(woken)
                 && deleted == old(deleted) + {n})
      ensures Partitioned()
    {
      forall n: nat | n < serial && n !in woken && n !in deleted
        ensures exists k :: k in armed && armed[k] == n
      {
        var k :| k in old(armed) && old(armed)[k] == n;
        assert k in armed && armed[k] == n;
      }
    }

    twostate lemma CountedAdd(new fd: nat, new e: Event, new c: EventContext)
      requires old(Counted()) && fd < |old(views)| && e !in old(views)[fd].events && old(views)[fd].At(e) == EMPTY
      requires views == old(views)[fd := old(views)[fd].With(e, c, old(views)[fd].events + {e})]
      requires pending == old(pending) + 1 && Share(sched.parked, this) == old(Share(sched.parked, this)) + FiberOf(c)
      ensures Counted()
    {
      hide View.With, FibersOf, FiberOf, Armed, Waiting, Share;
      var v := old(views)[fd];
      var u := v.With(e, c, v.events + {e});
      ArmedUpdate(old(views), fd, u);
      WaitingUpdate(old(views), fd, u);
      WithFibers(v, e, c, v.events + {e});
      assert |v.events + {e}| == |v.events| + 1;
      SwapPart(Waiting(old(views)), FibersOf(v), FibersOf(u), FiberOf(c));
    }

    twostate lemma CountedRemove(new fd: nat, new e: Event)
      requires old(Counted()) && fd < |old(views)| && e in old(views)[fd].events
      requires views == old(views)[fd := old(views)[fd].With(e, EMPTY, old(views)[fd].events - {e})]
      requires pending == old(pending) - 1
      requires Share(sched.parked, this) == old(Share(sched.parked, this)) - FiberOf(old(views)[fd].At(e))
      ensures Counted()
    {
      hide View.With, FibersOf, FiberOf, Armed, Waiting, Share;
      var v := old(views)[fd];
      var u := v.With(e, EMPTY, v.events - {e});
      ArmedUpdate(old(views), fd, u);
      WaitingUpdate(old(views), fd, u);
      WithFibers(v, e, EMPTY, v.events - {e});
      assert |v.events - {e}| == |v.events| - 1;
      SwapPart(Waiting(old(views)), FibersOf(v), FibersOf(u), FiberOf(v.At(e)));
    }

    /** While a registration that wakes f is armed, f has a wake-up outstanding. */
    lemma HolderWaits(n: nat, f: Fiber)
      requires Valid() && n in asked && asked[n].fiber == f && n in armed.Values
      ensures sched.Pending(f) >= 1
    {
      var k :| k in armed && armed[k] == n;
      WaitingIncludes(views, k.0);
      WithFibers(views[k.0], k.1, EMPTY, {});
      assert f in FibersOf(views[k.0]);
      ShareHas(sched.parked, f, this);
    }

    /** What every step does to the registrations there are: they keep their fibers, and none is armed again. */
    twostate predicate Onward()
      reads this`serial, this`asked, this`armed
    {
      && old(serial) <= serial
      && (forall n :: n in old(asked) && n < old(serial) ==> n in asked && asked[n] == old(asked)[n])
      && (forall k :: k in armed ==> (k in old(armed) && armed[k] == old(armed)[k]) || armed[k] >= old(serial))
    }

    twostate lemma Fewer()
      requires serial == old(serial) && asked == old(asked)
      requires forall k :: k in armed ==> k in old(armed) && armed[k] == old(armed)[k]
      ensures Onward()
    {
    }

    lemma KeptNow()
      requires Valid()
      ensures Kept() && |views| == |contexts|
    {
      hide Scheduler.Valid, AllExact, Counted, Interest, Registered;
    }

    lemma Underlying()
      requires Valid()
      ensures sched.Valid() && |views| == |contexts|
    {
    }

    lemma NumbersBelow()
      requires Valid()
      ensures forall k :: k in armed ==> armed[k] < serial
    {
      hide Scheduler.Valid, AllExact, Interest, Counted, Layout;
    }

    /** Steps of others that leave the manager's share alone keep it valid. */
    twostate lemma Beside()
      requires old(Valid()) && sched.Valid() && unchanged(this) && unchanged(contexts)
      requires Share(sched.parked, this) == old(Share(sched.parked, this))
      ensures Valid()
    {
      hide Scheduler.Valid, AllExact, Interest, Registered, Share, Armed, Waiting;
    }

    /** A registration that is not armed any more has been woken or deleted. */
    lemma Resolved(n: nat)
      requires Valid() && n < serial
      ensures n in armed.Values || n in woken || n in deleted
      ensures !(n in armed.Values && n in woken) && !(n in armed.Values && n in deleted)
              && !(n in woken && n in deleted)
    {
    }

    /** addEvent(fd, event, cb), called by the running fiber `caller` on a thread whose scheduler is `mine`.
        The assertion that the direction is not armed is the caller's to meet; the assertion that the context
        is empty always holds. The context keeps `mine`, so the invariant survives a registration exactly if
        that is the manager itself. */
    method AddEvent(fd: nat, e: Event, cb: Option<Callback>, caller: Fiber, mine: Scheduler?, refuse: bool)
      returns (rt: AddResult)
      requires Valid() && caller in sched.all
      requires cb.None? ==> caller.state == EXEC && sched.MayWake(caller)
      modifies this, contexts, sched`parked
      ensures Rest(sched.parked, this) == old(Rest(sched.parked, this))
      ensures |contexts| == |views| == (if fd < |old(contexts)| then |old(contexts)| else fd + fd / 2)
              && fd < |contexts|
      ensures old(contexts) <= contexts && forall c :: c in contexts ==> c in old(contexts) || fresh(c)
      ensures rt == if Armable(fd, e, old(views)) then Aborted else if refuse then Refused else Added
      ensures fd < |old(contexts)| ==> contexts == old(contexts)
      ensures forall g :: 0 <= g < |views| && g != fd ==> views[g] == ViewAt(old(views), g)
      ensures views[fd] == if rt == Added
                then ViewAt(old(views), fd).With(e, Registrant(mine, cb, caller), ViewAt(old(views), fd).events + {e})
                else ViewAt(old(views), fd)
      ensures rt != Added ==>
                && asked == old(asked) && pending == old(pending) && serial == old(serial)
                && armed == old(armed) && sched.parked == old(sched.parked)
      ensures rt == Added ==>
                && serial == old(serial) + 1 && armed == old(armed)[(fd, e) := old(serial)]
                && pending == old(pending) + 1
                && asked == old(asked)[old(serial) := if cb.Some? then Task(null, cb, -1) else Task(caller, None, -1)]
                && sched.parked == if cb.None? then old(sched.parked)[caller := this] else old(sched.parked)
      ensures woken == old(woken) && deleted == old(deleted)
      ensures Valid() <==> rt != Added || mine == sched
    {
      hide AllExact, Interest, Registered, Armed, Waiting, View.With, FibersOf, Share, Rest, Counted;
      hide Scheduler.Valid, Scheduler.MayWake;
      if fd >= |contexts| {
        Resize(fd + fd / 2);  // larger than fd, as the table has at least 32 contexts
      }
      var ctx := contexts[fd];
      At(fd, e);
      if e in ctx.events {
        return Aborted;
      }
      rt := Arm(fd, e, cb, caller, mine, refuse);
    }

    /** The part of addEvent that holds the context's lock, on a direction that is not armed. */
    method Arm(fd: nat, e: Event, cb: Option<Callback>, caller: Fiber, mine: Scheduler?, refuse: bool)
      returns (rt: AddResult)
      requires Valid() && fd < |contexts| && e !in views[fd].events && caller in sched.all
      requires cb.None? ==> caller.state == EXEC && sched.MayWake(caller)
      modifies this, contexts[fd], sched`parked
      ensures Rest(sched.parked, this) == old(Rest(sched.parked, this))
      ensures contexts == old(contexts) && |views| == |contexts| && rt == if refuse then Refused else Added
      ensures woken == old(woken) && deleted == old(deleted)
      ensures refuse ==>
                && asked == old(asked) && views == old(views) && pending == old(pending)
                && serial == old(serial) && armed == old(armed) && sched.parked == old(sched.parked)
      ensures !refuse ==>
                && serial == old(serial) + 1 && armed == old(armed)[(fd, e) := old(serial)]
                && pending == old(pending) + 1
                && asked == old(asked)[old(serial) := if cb.Some? then Task(null, cb, -1) else Task(caller, None, -1)]
                && views == old(views)[fd := old(views)[fd].With(e, Registrant(mine, cb, caller),
                                                                 old(views)[fd].events + {e})]
                && sched.parked == if cb.None? then old(sched.parked)[caller := this] else old(sched.parked)
      ensures Valid() <==> refuse || mine == sched
    {
      hide AllExact, Interest, Registered, Armed, Waiting, Layout, View.With, FibersOf, Share, Rest, Counted;
      hide Scheduler.Valid, Scheduler.MayWake;
      At(fd, e);
      LayoutLength();
      Masked(fd);
      var ctx := contexts[fd];
      var op := if ctx.events != {} then Mod else Add;
      var r := EpollCtl(op, fd, ctx.events + {e}, refuse);
      if r != 0 {
        return Refused;
      }
      assert ctx.Now().At(e) == EMPTY;  // SYLAR_ASSERT(!scheduler && !fiber && !cb)
      var c := Registrant(mine, cb, caller);
      Note(fd, e, c);
      if mine == sched {
        ArmedHere(fd, e, c);
      } else {
        ArmedElsewhere(fd, e);
      }
      if cb.None? {
        sched.Park(caller, this);
      }
      CountedAdd(fd, e, c);
      rt := Added;
    }

    /** ++pending, the mask and the context of a new registration. */
    method Note(fd: nat, e: Event, c: EventContext)
      requires Layout() && fd < |contexts| && |views| == |contexts|
      modifies this`views, this`pending, this`armed, this`asked, this`serial, contexts[fd]
      ensures Layout() && views == old(views)[fd := old(views)[fd].With(e, c, old(views)[fd].events + {e})]
      ensures pending == old(pending) + 1 && serial == old(serial) + 1
      ensures armed == old(armed)[(fd, e) := old(serial)] && asked == old(asked)[old(serial) := WakeUp(c)]
    {
      hide View.With;
      Put(fd, e, c, contexts[fd].events + {e});
      pending := pending + 1;
      armed := armed[(fd, e) := serial];
      asked := asked[serial := WakeUp(c)];
      serial := serial + 1;
    }

    twostate lemma ArmedHere(new fd: nat, new e: Event, new c: EventContext)
      requires old(AllExact() && Interest() && Registered()) && fd < |old(views)| && e !in old(views)[fd].events
      requires c.scheduler == sched && (c.fiber == null <==> c.cb.Some?)
      requires views == old(views)[fd := old(views)[fd].With(e, c, old(views)[fd].events + {e})]
      requires kernel == old(kernel)[fd := old(views)[fd].events + {e}]
      requires serial == old(serial) + 1 && armed == old(armed)[(fd, e) := old(serial)]
      requires woken == old(woken) && deleted == old(deleted) && asked == old(asked)[old(serial) := WakeUp(c)]
      ensures AllExact() && Interest() && Registered()
    {
      hide AllExact, Interest, Registered, View.With, View.At;
      InterestMoved(fd);
      ExactMoved(fd, e);
      RegisteredAdd(fd, e);
    }

    /** A context that names another scheduler, or none. */
    lemma ArmedElsewhere(fd: nat, e: Event)
      requires fd < |views| && e in views[fd].events && views[fd].At(e).scheduler != sched
      ensures !AllExact()
    {
      assert !Exact(views[fd]);
    }

    /** Everything but the kernel's interest, which the callers of triggerEvent change first. */
    ghost predicate Core()
      reads this, contexts, sched, sched.all, sched.idlers
    {
      sched.Valid() && |contexts| >= 32 && Layout() && AllExact() && Counted() && Registered()
    }

    lemma WakeUpParked(fd: nat, e: Event)
      requires Counted() && fd < |views| && e in views[fd].events
      ensures pending >= 1
      ensures views[fd].At(e).fiber != null ==>
                views[fd].At(e).fiber in sched.parked && sched.parked[views[fd].At(e).fiber] == this
    {
      ArmedUpdate(views, fd, views[fd].With(e, EMPTY, views[fd].events - {e}));
      assert |views[fd].events - {e}| == |views[fd].events| - 1;
      WaitingIncludes(views, fd);
      WithFibers(views[fd], e, EMPTY, {});
      var f := views[fd].At(e).fiber;
      if f != null {
        assert f in FibersOf(views[fd]);
        ShareHas(sched.parked, f, this);
      }
    }

    twostate lemma RemovedHere(new fd: nat, new e: Event)
      requires old(AllExact() && Counted() && Registered()) && fd < |old(views)| && e in old(views)[fd].events
      requires views == old(views)[fd := old(views)[fd].With(e, EMPTY, old(views)[fd].events - {e})]
      requires pending == old(pending) - 1
      requires Share(sched.parked, this) == old(Share(sched.parked, this)) - FiberOf(old(views)[fd].At(e))
      requires serial == old(serial) && asked == old(asked)
      requires (fd, e) in old(armed) && armed == old(armed) - {(fd, e)}
      requires var n := old(armed)[(fd, e)];
               (woken == old(woken) + {n} && deleted == old(deleted)) || (woken == old(woken)
                 && deleted == old(deleted) + {n})
      ensures AllExact() && Counted() && Registered()
    {
      hide AllExact, Counted, Registered, View.With, View.At, FiberOf;
      CountedRemove(fd, e);
      ExactMoved(fd, e);
      RegisteredRemove(fd, e);
    }

    /** triggerEvent(event) and the decrement that follows it: the context is emptied and its wake-up
        goes to the queue, once. The assertion events & event is the precondition. */
    method Trigger(fd: nat, e: Event)
      requires Core() && fd < |contexts| && e in views[fd].events
      modifies this`views, this`pending, this`armed, this`woken, contexts[fd], sched`fibers, sched`issued, sched`parked
      ensures Rest(sched.parked, this) == old(Rest(sched.parked, this))
      ensures Core() && (fd, e) in old(armed)
      ensures views == old(views)[fd := old(views)[fd].With(e, EMPTY, old(views)[fd].events - {e})]
      ensures sched.fibers == old(sched.fibers) + [WakeUp(old(views)[fd].At(e))]
      ensures old(armed)[(fd, e)] in asked && WakeUp(old(views)[fd].At(e)) == asked[old(armed)[(fd, e)]]
      ensures sched.parked == old(sched.parked) - Sleepers(old(views)[fd].At(e))
      ensures pending == old(pending) - 1
      ensures armed == old(armed) - {(fd, e)} && woken == old(woken) + {old(armed)[(fd, e)]}
      ensures old(armed)[(fd, e)] !in old(woken) && old(armed)[(fd, e)] !in deleted
    {
      hide AllExact, Registered, Armed, Waiting, View.With, FibersOf, Share, Rest, Counted, Layout;
      hide Scheduler.Valid;
      LayoutLength();
      At(fd, e);
      WakeUpParked(fd, e);
      ghost var v := views[fd];
      var ctx := contexts[fd];
      assert e in ctx.events;  // SYLAR_ASSERT(events & event)
      var c := ctx.Now().At(e);
      Put(fd, e, EMPTY, ctx.events - {e});
      var need;
      if c.cb.Some? {
        need := c.scheduler.ScheduleCallback(c.cb, -1);
      } else {
        need := c.scheduler.ScheduleParked(c.fiber, this);
      }
      pending := pending - 1;
      woken := woken + {armed[(fd, e)]};
      armed := armed - {(fd, e)};
      RemovedHere(fd, e);
    }

    /** delEvent: the registration disappears without a wake-up. The result is false in every case. */
    method DelEvent(fd: nat, e: Event, refuse: bool) returns (r: bool)
      requires Valid()
      modifies this, contexts, sched`parked
      ensures Rest(sched.parked, this) == old(Rest(sched.parked, this))
      ensures Valid() && contexts == old(contexts) && !r && woken == old(woken) && serial == old(serial)
              && asked == old(asked)
      ensures if !refuse && Armable(fd, e, old(views))
              then armed == old(armed) - {(fd, e)} && deleted == old(deleted) + {old(armed)[(fd, e)]}
                   && pending == old(pending) - 1
                   && views == old(views)[fd := old(views)[fd].With(e, EMPTY, old(views)[fd].events - {e})]
                   && sched.parked == old(sched.parked) - Sleepers(old(views)[fd].At(e))
              else armed == old(armed) && deleted == old(deleted) && pending == old(pending) && views == old(views)
                   && sched.parked == old(sched.parked)
    {
      hide AllExact, Interest, Registered, Armed, Waiting, View.With, FibersOf, Share, Rest, Counted, Layout;
      hide Scheduler.Valid;
      LayoutLength();
      if fd >= |contexts| {
        return false;
      }
      var ctx := contexts[fd];
      At(fd, e);
      if e !in ctx.events {
        return false;
      }
      Masked(fd);
      var newEvents := ctx.events - {e};
      var op := if newEvents != {} then Mod else Del;
      var rt := EpollCtl(op, fd, newEvents, refuse);
      if rt != 0 {
        return false;
      }
      Forget(fd, e);
      InterestMoved(fd);
      return false;
    }

    /** --pending, the mask and resetContext. */
    method Forget(fd: nat, e: Event)
      requires Core() && fd < |contexts| && e in views[fd].events
      modifies this`views, this`pending, this`armed, this`deleted, contexts[fd], sched`parked
      ensures Rest(sched.parked, this) == old(Rest(sched.parked, this))
      ensures Core() && (fd, e) in old(armed)
      ensures views == old(views)[fd := old(views)[fd].With(e, EMPTY, old(views)[fd].events - {e})]
      ensures pending == old(pending) - 1
      ensures sched.parked == old(sched.parked) - Sleepers(old(views)[fd].At(e))
      ensures armed == old(armed) - {(fd, e)} && deleted == old(deleted) + {old(armed)[(fd, e)]}
    {
      hide AllExact, Registered, Armed, Waiting, View.With, FibersOf, Share, Rest, Counted, Layout;
      hide Scheduler.Valid;
      LayoutLength();
      At(fd, e);
      WakeUpParked(fd, e);
      var ctx := contexts[fd];
      ghost var c := views[fd].At(e);
      pending := pending - 1;
      Put(fd, e, EMPTY, ctx.events - {e});
      deleted := deleted + {armed[(fd, e)]};
      armed := armed - {(fd, e)};
      if c.fiber != null {
        sched.Unpark(c.fiber, this);
      }
      RemovedHere(fd, e);
    }

    /** cancelEvent: the registration ends with its wake-up, which is what it was made to queue. The result is
        false in every case. */
    method CancelEvent(fd: nat, e: Event, refuse: bool) returns (r: bool)
      requires Valid()
      modifies this, contexts, sched`fibers, sched`issued, sched`parked
      ensures Rest(sched.parked, this) == old(Rest(sched.parked, this))
      ensures Valid() && contexts == old(contexts) && !r && deleted == old(deleted) && serial == old(serial)
              && asked == old(asked)
      ensures if !refuse && Armable(fd, e, old(views))
              then armed == old(armed) - {(fd, e)} && woken == old(woken) + {old(armed)[(fd, e)]}
                   && pending == old(pending) - 1
                   && views == old(views)[fd := old(views)[fd].With(e, EMPTY, old(views)[fd].events - {e})]
                   && sched.fibers == old(sched.fibers) + [WakeUp(old(views)[fd].At(e))]
                   && old(armed)[(fd, e)] in asked && WakeUp(old(views)[fd].At(e)) == asked[old(armed)[(fd, e)]]
                   && sched.parked == old(sched.parked) - Sleepers(old(views)[fd].At(e))
              else armed == old(armed) && woken == old(woken) && pending == old(pending) && views == old(views)
                   && sched.fibers == old(sched.fibers) && sched.parked == old(sched.parked)
    {
      hide AllExact, Interest, Registered, Armed, Waiting, View.With, FibersOf, Share, Rest, Counted, Layout;
      hide Scheduler.Valid;
      LayoutLength();
      if fd >= |contexts| {
        return false;
      }
      var ctx := contexts[fd];
      At(fd, e);
      if e !in ctx.events {
        return false;
      }
      Masked(fd);
      var newEvents := ctx.events - {e};
      var op := if newEvents != {} then Mod else Del;
      var rt := EpollCtl(op, fd, newEvents, refuse);
      if rt != 0 {
        return false;
      }
      Trigger(fd, e);
      InterestMoved(fd);
      return false;
    }

    /** cancelAll: both directions; afterwards none is armed, as its assertion says. */
    method CancelAll(fd: nat, refuse: bool) returns (r: bool)
      requires Valid()
      modifies this, contexts, sched`fibers, sched`issued, sched`parked
      ensures Rest(sched.parked, this) == old(Rest(sched.parked, this))
      ensures Valid() && contexts == old(contexts) && !r && deleted == old(deleted) && serial == old(serial)
              && asked == old(asked)
      ensures if !refuse && fd < |old(views)|
              then views == old(views)[fd := Cleared(old(views)[fd], old(views)[fd].events)] && views[fd].events == {}
                   && armed == old(armed) - Pairs(fd, old(views)[fd].events)
                   && pending == old(pending) - HowMany(old(views)[fd].events)
                   && woken == old(woken) + Numbers(old(armed), fd, old(views)[fd].events)
                   && sched.fibers == old(sched.fibers) + WakeUps(old(views)[fd], old(views)[fd].events)
              else armed == old(armed) && woken == old(woken) && pending == old(pending) && views == old(views)
                   && sched.fibers == old(sched.fibers)
      ensures !refuse ==> sched.fibers == old(sched.fibers) + Asked(old(armed), asked, fd, READ)
                                                            + Asked(old(armed), asked, fd, WRITE)
      ensures !refuse ==> armed == old(armed) - {(fd, READ), (fd, WRITE)}
    {
      hide AllExact, Interest, Registered, Armed, Waiting, View.With, FibersOf, Share, Rest, Counted, Layout;
      hide Scheduler.Valid, Asked, WakeUps, Registration;
      LayoutLength();
      ArmedNow(fd, READ);
      ArmedNow(fd, WRITE);
      BothAsked(ViewAt(views, fd), armed, asked, fd);
      if fd >= |contexts| {
        return false;
      }
      NothingCleared(views, fd);
      var ctx := contexts[fd];
      At(fd, READ);
      At(fd, WRITE);
      if ctx.events == {} {
        return false;
      }
      Masked(fd);
      var rt := EpollCtl(Del, fd, {}, refuse);
      if rt != 0 {
        return false;
      }
      TwoEvents(ctx.events, {READ, WRITE});
      TriggerBoth(fd, {READ, WRITE});
      assert ctx.events == {};  // SYLAR_ASSERT(fd_ctx->events == 0)
      InterestMoved(fd);
      return false;
    }

    /** READ, then WRITE, as far as they are asked for. */
    method TriggerBoth(fd: nat, asked: set<Event>)
      requires Core() && fd < |contexts|
      modifies this`views, this`pending, this`armed, this`woken, contexts[fd], sched`fibers, sched`issued, sched`parked
      ensures Rest(sched.parked, this) == old(Rest(sched.parked, this))
      ensures Core() && views == old(views)[fd := Cleared(old(views)[fd], old(views)[fd].events * asked)]
      ensures views[fd].events == old(views)[fd].events - asked && contexts[fd].events == views[fd].events
      ensures armed == old(armed) - Pairs(fd, old(views)[fd].events * asked)
      ensures pending == old(pending) - HowMany(old(views)[fd].events * asked)
      ensures woken == old(woken) + Numbers(old(armed), fd, old(views)[fd].events * asked)
      ensures sched.fibers == old(sched.fibers) + WakeUps(old(views)[fd], old(views)[fd].events * asked)
    {
      hide AllExact, Registered, Armed, Waiting, View.With, FibersOf, Share, Rest, Counted, Layout;
      hide Scheduler.Valid;
      LayoutLength();
      TwoEvents(views[fd].events, asked);
      ClearedByOne(views[fd], asked);
      At(fd, READ);
      At(fd, WRITE);
      if READ in asked && READ in contexts[fd].events {
        Trigger(fd, READ);
      }
      LayoutLength();
      At(fd, WRITE);
      if WRITE in asked && WRITE in contexts[fd].events {
        Trigger(fd, WRITE);
      }
      LayoutLength();
      At(fd, READ);
    }

    // ----- the idle loop -----

    /** One ready descriptor. An error or hang-up counts as both directions, armed or not: the
        assertion in triggerEvent then fails exactly when the event is not refused by epoll_ctl,
        something of it is armed and something of it is not. `ok` says that it does not fail. Every armed
        direction that is reported ends with what its registration was made to queue, reading first; every
        other one stays as it is. */
    method HandleReady(fd: nat, reported: set<Event>, broken: bool, refuse: bool) returns (ok: bool)
      requires Valid() && fd < |contexts|
      modifies this, contexts, sched`fibers, sched`issued, sched`parked
      ensures Rest(sched.parked, this) == old(Rest(sched.parked, this))
      ensures var actual := Real(reported, broken);
              var events := old(views)[fd].events;
              && (ok <==> refuse || events * actual == {} || actual <= events)
              && (ok ==>
                    && Valid() && contexts == old(contexts) && deleted == old(deleted)
                    && serial == old(serial) && asked == old(asked))
              && (ok ==>
                    if refuse || events * actual == {}
                    then && views == old(views) && armed == old(armed) && woken == old(woken)
                         && pending == old(pending) && sched.fibers == old(sched.fibers)
                    else && views == old(views)[fd := Cleared(old(views)[fd], actual)]
                         && armed == old(armed) - Pairs(fd, actual)
                         && woken == old(woken) + Numbers(old(armed), fd, actual)
                         && pending == old(pending) - HowMany(actual)
                         && sched.fibers == old(sched.fibers) + WakeUps(old(views)[fd], actual))
      ensures ok <==>
              || refuse
              || (forall e: Event :: e in old(views)[fd].events ==> !broken && e !in reported)
              || (forall e: Event :: broken || e in reported ==> e in old(views)[fd].events)
      ensures ok && !refuse ==>
                forall e: Event ::
                  if e in old(views)[fd].events && (broken || e in reported)
                  then && e !in views[fd].events && (fd, e) in old(armed) && old(armed)[(fd, e)] in woken
                       && |Asked(old(armed), asked, fd, e)| == 1
                  else && (e in views[fd].events <==> e in old(views)[fd].events)
                       && views[fd].At(e) == old(views)[fd].At(e)
      ensures ok && !refuse ==>
                sched.fibers == old(sched.fibers)
                                + (if broken || READ in reported then Asked(old(armed), asked, fd, READ) else [])
                                + (if broken || WRITE in reported then Asked(old(armed), asked, fd, WRITE) else [])
      ensures ok ==>
                && old(sched.fibers) <= sched.fibers && old(woken) <= woken
                && (forall k :: k in armed ==> k in old(armed))
                && |sched.fibers| - |old(sched.fibers)| == old(pending) - pending
                && Settled(old(armed), [Ready(fd, reported, broken, refuse)], armed, woken, asked,
                           sched.fibers[|old(sched.fibers)|..])
    {
      hide Settled, Covers;
      hide Valid, Share, Rest, Real, Cleared, Pairs, Numbers, HowMany, WakeUps, Asked;
      KnownAt(fd);
      ghost var v, before, known, q := views[fd], armed, woken, sched.fibers;
      ok := Answer(fd, reported, broken, refuse);
      Reported(v.events, reported, broken);
      if ok {
        ghost var es := if refuse then {} else v.events * Real(reported, broken);
        assert es == {} || (!refuse && es == Real(reported, broken));
        NothingNumbered(v, before, fd);
        OneEach(v, es);
        assert sched.fibers == q + WakeUps(v, es) && sched.fibers[|q|..] == WakeUps(v, es);
        SettledOne(v, before, asked, Ready(fd, reported, broken, refuse), known);
        if !refuse {
          Served(v, before, asked, fd, reported, broken);
        }
      }
    }

    method Answer(fd: nat, reported: set<Event>, broken: bool, refuse: bool) returns (ok: bool)
      requires Valid() && fd < |contexts|
      modifies this, contexts, sched`fibers, sched`issued, sched`parked
      ensures Rest(sched.parked, this) == old(Rest(sched.parked, this))
      ensures var actual := Real(reported, broken);
              var events := old(views)[fd].events;
              && (ok <==> refuse || events * actual == {} || actual <= events)
              && (ok ==>
                    && Valid() && contexts == old(contexts) && deleted == old(deleted)
                    && serial == old(serial) && asked == old(asked))
              && (ok ==>
                    if refuse || events * actual == {}
                    then && views == old(views) && armed == old(armed) && woken == old(woken)
                         && pending == old(pending) && sched.fibers == old(sched.fibers)
                    else && views == old(views)[fd := Cleared(old(views)[fd], actual)]
                         && armed == old(armed) - Pairs(fd, actual)
                         && woken == old(woken) + Numbers(old(armed), fd, actual)
                         && pending == old(pending) - HowMany(actual)
                         && sched.fibers == old(sched.fibers) + WakeUps(old(views)[fd], actual))
    {
      hide AllExact, Interest, Registered, Armed, Waiting, View.With, FibersOf, Share, Rest, Counted, Layout;
      hide Scheduler.Valid;
      LayoutLength();
      At(fd, READ);
      At(fd, WRITE);
      var ctx := contexts[fd];
      var actual := Real(reported, broken);
      if ctx.events * actual == {} {
        return true;
      }
      Masked(fd);
      assert ctx.events != {};
      var left := ctx.events - actual;
      var op := if left != {} then Mod else Del;
      var rt := EpollCtl(op, fd, left, refuse);
      if rt != 0 {
        return true;
      }
      if !(actual <= ctx.events) {
        return false;
      }
      assert ctx.events * actual == actual;
      TriggerBoth(fd, actual);
      InterestMoved(fd);
      return true;
    }

    lemma ArmedNow(fd: nat, e: Event)
      requires Valid()
      ensures (fd, e) in armed <==> Armable(fd, e, views)
      ensures |views| == |contexts| && Registration(ViewAt(views, fd), armed, asked, fd)
    {
      hide Scheduler.Valid, Interest, Armed, Waiting, Share, Counted, AllExact;
      LayoutLength();
      if fd < |views| {
        KnownAt(fd);
      }
    }

    lemma KnownAt(fd: nat)
      requires Valid() && fd < |contexts|
      ensures fd < |views| && Registration(views[fd], armed, asked, fd)
    {
      hide Scheduler.Valid, Interest, Armed, Waiting, Share, Counted;
      forall e: Event
        ensures if e in views[fd].events
                then (fd, e) in armed && armed[(fd, e)] in asked && WakeUp(views[fd].At(e)) == asked[armed[(fd, e)]]
                else (fd, e) !in armed
      {
        At(fd, e);
      }
    }

    /** One entry of the result of epoll_wait. */
    method HandleReport(r: Report) returns (ok: bool)
      requires Valid() && (r.Ready? ==> r.fd < |contexts|)
      modifies this, contexts, sched`fibers, sched`issued, sched`parked
      ensures Rest(sched.parked, this) == old(Rest(sched.parked, this)) && (ok <==> Sound(old(views), r))
      ensures ok ==>
                && Valid() && contexts == old(contexts) && deleted == old(deleted)
                && serial == old(serial) && asked == old(asked)
      ensures ok ==> views == After(old(views), r) && sched.fibers == old(sched.fibers) + Wakes(old(views), r)
      ensures ok ==> |sched.fibers| - |old(sched.fibers)| == old(pending) - pending && old(sched.fibers) <= sched.fibers
      ensures ok ==>
                && (forall k :: k in armed ==> k in old(armed) && armed[k] == old(armed)[k]) && old(woken) <= woken
                && Settled(old(armed), [r], armed, woken, asked, sched.fibers[|old(sched.fibers)|..])
    {
      hide IOManager.Valid, Share, Rest, After, Wakes, Sound, Cleared, Real, Pairs, Numbers, Settled, WakeUps, HowMany;
      hide Asked;
      LengthNow();
      ReportMeans(views, r);
      SettledTickle(armed, woken, asked);
      ok := true;
      if r.Ready? {
        ok := HandleReady(r.fd, r.reported, r.broken, r.refuse);
      }
    }

    /** The loop over what epoll_wait reported; a report of the wake-up pipe only drains it. The contexts
        and the queue end as the reports, one after the other, make them. */
    method Dispatch(reports: seq<Report>) returns (ok: bool)
      requires Valid() && forall r :: r in reports && r.Ready? ==> r.fd < |contexts|
      modifies this, contexts, sched`fibers, sched`issued, sched`parked
      ensures Rest(sched.parked, this) == old(Rest(sched.parked, this))
      ensures ok ==> Onward()
      ensures ok <==> AllSound(old(views), reports)
      ensures ok ==>
                && Valid() && contexts == old(contexts) && deleted == old(deleted)
                && serial == old(serial) && asked == old(asked)
      ensures ok ==> old(sched.fibers) <= sched.fibers
                     && Settled(old(armed), reports, armed, woken, asked, sched.fibers[|old(sched.fibers)|..])
      ensures ok ==> views == AfterAll(old(views), reports) && old(woken) <= woken
      ensures ok ==> sched.fibers == old(sched.fibers) + WakesAll(old(views), reports)
      ensures ok ==> |sched.fibers| - |old(sched.fibers)| == old(pending) - pending
    {
      hide IOManager.Valid, Onward, Share, Rest, After, Wakes, Sound, Cleared, AfterAll, WakesAll, Registration;
      hide Real, Pairs, Numbers, Settled, WakeUps, HowMany, Asked;
      LengthNow();
      ghost var vs, q, start := views, sched.fibers, armed;
      NoReports(vs, reports);
      SettledNone(armed, woken, asked);
      for i := 0 to |reports|
        invariant Valid() && contexts == old(contexts) && deleted == old(deleted) && serial == old(serial)
                  && asked == old(asked)
        invariant views == AfterAll(vs, reports[..i]) && old(woken) <= woken
        invariant sched.fibers == old(sched.fibers) + WakesAll(vs, reports[..i])
        invariant Rest(sched.parked, this) == old(Rest(sched.parked, this)) && forall k :: k in armed ==>
                  k in old(armed) && armed[k] == old(armed)[k]
        invariant |sched.fibers| - |old(sched.fibers)| == old(pending) - pending
        invariant forall j :: 0 <= j < i ==> Sound(AfterAll(vs, reports[..j]), reports[j])
        invariant q <= sched.fibers && Settled(start, reports[..i], armed, woken, asked, sched.fibers[|q|..])
      {
        ghost var now, known, p := armed, woken, sched.fibers;
        OneMoreReport(vs, reports, i);
        ok := HandleReport(reports[i]);
        if !ok {
          return false;
        }
        assert reports[..i + 1] == reports[..i] + [reports[i]];
        assert sched.fibers[|q|..] == p[|q|..] + sched.fibers[|p|..];
        SettledMore(start, reports[..i], now, known, p[|q|..], [reports[i]], armed, woken, sched.fibers[|p|..], asked);
      }
      assert reports[..|reports|] == reports;
      Fewer();
      return true;
    }

    lemma LengthNow()
      requires Valid()
      ensures |views| == |contexts|
    {
    }

    /** stopping(timeout): no timer, no armed event, and the scheduler may stop. */
    method Stopping(now: U64) returns (stop: bool, timeout: U64)
      requires Valid() && timers.Valid()
      modifies timers`tickled, timers`seen, timers`hooks, timers`clock, timers`sane
      ensures Valid() && timers.Valid() && !timers.tickled
      ensures stop <==> timeout == MAX64 && pending == 0 && sched.Stopping()
      ensures timeout == MAX64 <==> timers.timers == [] || (now == 0 && timers.timers[0].next == MAX64)
      ensures forall t :: t in timers.timers ==> now + timeout <= t.next || timeout == 0
      ensures timers.timers != [] ==> timers.timers[0] in timers.timers && timers.timers[0].next <= now + timeout
    {
      hide TimerManager.Ordered, TimerManager.Members, TimerManager.Handles, TimerManager.History;
      hide TimerManager.Paced, TimerManager.Awake;
      hide AllExact, Interest, Registered, Counted, Layout;
      hide Scheduler.Valid;
      timeout := timers.GetNextTimer(now);
      stop := timeout == MAX64 && pending == 0 && sched.Stopping();
    }

    /** A worker that stops leaves nothing behind: every ticket is consumed, nobody holds one, no event
        is armed and every registration has ended. */
    lemma Drained()
      requires Valid() && pending == 0 && sched.Stopping()
      ensures sched.issued == sched.consumed
      ensures forall i :: 0 <= i < |sched.workers| ==>
                !sched.workers[i].phase.Picked? && !sched.workers[i].phase.Running?
      ensures armed == map[] && forall fd :: 0 <= fd < |views| ==> views[fd].events == {}
      ensures forall n: nat :: n < serial <==> n in woken || n in deleted
    {
      sched.DrainedWhenStopping();
      forall k | k in armed
        ensures k.0 < |views| && k.1 in views[k.0].events
      {
        assert (k.0, k.1) in armed;
      }
      NoneWaiting(views);
    }

    /** The top of the idle loop: the worker's idle fiber ends when everything is drained. Otherwise
        epoll_wait is given `wait`; a positive wait never passes a deadline, a negative one has no bound. It is
        the longest wait up to three seconds that passes none, as long as the remaining time does not begin
        anew at a multiple of 2^32 milliseconds. */
    method IdleCheck(w: nat, now: U64) returns (stop: bool, timeout: U64, wait: int)
      requires Valid() && timers.Valid() && w < |sched.workers| && sched.workers[w].phase.Idling?
      modifies timers`tickled, timers`seen, timers`hooks, timers`clock
      modifies timers`sane, sched`workers, sched`idle, sched.idlers
      ensures Valid() && timers.Valid() && !timers.tickled
      ensures stop <==> timeout == MAX64 && pending == 0 && old(sched.Stopping())
      ensures timeout == MAX64 <==> timers.timers == [] || (now == 0 && timers.timers[0].next == MAX64)
      ensures stop ==> sched.issued == sched.consumed && armed == map[] && sched.idlers[w].state == TERM
      ensures sched.workers == if stop then old(sched.workers)[w := old(sched.workers)[w].(phase := Scanning)]
                               else old(sched.workers)
      ensures wait > 0 ==> forall t :: t in timers.timers ==> now + wait <= t.next
      ensures wait <= 3000 && (wait < 0 <==> timeout != MAX64 && timeout % 0x1_0000_0000 >= 0x8000_0000)
      ensures timers.timers == [] ==> wait == 3000
      ensures (0 <= wait < 3000 ==> exists t :: t in timers.timers && t.next <= now + wait) <==>
              timeout < 0x1_0000_0000 || timeout % 0x1_0000_0000 >= 3000
    {
      hide TimerManager.Valid, Scheduler.Valid, AllExact, Interest, Registered, Counted, Layout;
      stop, timeout := Stopping(now);
      wait := EpollTimeout(timeout);
      EpollTimeoutIff(timeout);
      EpollTimeoutExact(timeout);
      if stop {
        Drained();
        sched.LeaveIdle(w, true);
      }
    }

    /** The functions of the expired timers are queued, in the order of the set. */
    method QueueExpired(now: U64, probe: nat) returns (ghost cbs: seq<Option<Callback>>)
      requires Valid() && timers.Valid()
      modifies timers`timers, timers`previousTime, timers`clock, timers`sane, timers.all, sched`fibers, sched`issued
      ensures Valid() && timers.Valid() && timers.all == old(timers.all)
      ensures |cbs| <= |old(timers.timers)| && forall i :: 0 <= i < |cbs| ==> cbs[i] == old(timers.timers[i].cb)
      ensures RolledOver(now, old(timers.previousTime)) ==> |cbs| == |old(timers.timers)|
      ensures !RolledOver(now, old(timers.previousTime)) ==>
                forall i :: 0 <= i < |old(timers.timers)| ==> (i < |cbs| <==> old(timers.timers[i].next) <= now)
      ensures timers.Onward()
      ensures sched.fibers == old(sched.fibers) + CallbackTasks(cbs)
    {
      hide TimerManager.Valid, Scheduler.Valid, AllExact, Interest, Registered, Counted, Layout, RolledOver, Wrap;
      var expired := timers.ListExpired(now, probe);
      cbs := expired;
      if expired != [] {
        var need := sched.ScheduleBatch(expired);
      }
    }

    /** The rest of the idle loop after epoll_wait: the functions of expired timers and the wake-ups of
        ready events are queued, and the worker goes back to its run loop. */
    method IdleTurn(w: nat, now: U64, probe: nat, reports: seq<Report>)
      returns (ok: bool, ghost cbs: seq<Option<Callback>>)
      requires Valid() && timers.Valid() && w < |sched.workers| && sched.workers[w].phase.Idling?
      requires forall r :: r in reports && r.Ready? ==> r.fd < |contexts|
      modifies timers`timers, timers`previousTime, timers`clock, timers`sane, timers.all
      modifies this, contexts, sched`fibers, sched`issued, sched`parked, sched`workers, sched`idle, sched.idlers
      ensures Rest(sched.parked, this) == old(Rest(sched.parked, this))
      ensures timers.Valid() && timers.all == old(timers.all)
      ensures |cbs| <= |old(timers.timers)| && forall i :: 0 <= i < |cbs| ==> cbs[i] == old(timers.timers[i].cb)
      ensures RolledOver(now, old(timers.previousTime)) ==> |cbs| == |old(timers.timers)|
      ensures !RolledOver(now, old(timers.previousTime)) ==>
                forall i :: 0 <= i < |old(timers.timers)| ==> (i < |cbs| <==> old(timers.timers[i].next) <= now)
      ensures timers.Onward()
      ensures ok ==> Onward()
      ensures ok <==> AllSound(old(views), reports)
      ensures ok ==> Valid() && views == AfterAll(old(views), reports)
      ensures ok ==> sched.fibers == old(sched.fibers) + CallbackTasks(cbs) + WakesAll(old(views), reports)
      ensures ok ==> sched.workers == old(sched.workers)[w := old(sched.workers)[w].(phase := Scanning)]
    {
      hide TimerManager.Valid, IOManager.Valid, TimerManager.Onward, Share, Rest, RolledOver, CallbackTasks, WakesAll;
      hide AfterAll, AllSound;
      cbs := QueueExpired(now, probe);
      ok := DispatchIdle(w, reports);
    }

    /** The reports, and the yield that ends the turn. */
    method DispatchIdle(w: nat, reports: seq<Report>) returns (ok: bool)
      requires Valid() && timers.Valid() && w < |sched.workers| && sched.workers[w].phase.Idling?
      requires forall r :: r in reports && r.Ready? ==> r.fd < |contexts|
      modifies this, contexts, sched`fibers, sched`issued, sched`parked, sched`workers, sched`idle, sched.idlers
      ensures Rest(sched.parked, this) == old(Rest(sched.parked, this))
      ensures timers.Valid()
      ensures ok ==> Onward()
      ensures ok <==> AllSound(old(views), reports)
      ensures ok ==> Valid() && views == AfterAll(old(views), reports)
      ensures ok ==> sched.fibers == old(sched.fibers) + WakesAll(old(views), reports)
      ensures ok ==> sched.workers == old(sched.workers)[w := old(sched.workers)[w].(phase := Scanning)]
    {
      hide TimerManager.Valid, Scheduler.Valid, AllExact, Interest, Registered, Counted, Layout;
      hide WakesAll, AfterAll, AllSound, Share, Rest, Onward;
      ok := Dispatch(reports);
      if ok {
        sched.LeaveIdle(w, false);
      }
    }
  }

  /** Two workers in their idle loops, after stop() has been called. */
  method TwoIdle() returns (iom: IOManager)
    ensures fresh(iom) && fresh(iom.timers) && fresh(iom.sched) && fresh(iom.sched.idlers)
    ensures iom.sched.workers == [Worker(0, Idling, null), Worker(1, Idling, null)] && |iom.sched.idlers| == 2
    ensures iom.pending == 0 && iom.sched.fibers == [] && iom.sched.Stopping()
    ensures iom.timers.timers == [] && iom.timers.live == iom.timers.all == {} && iom.timers.previousTime == 0
    ensures iom.Valid() && iom.timers.Valid()
  {
    hide Scheduler.Valid, TimerManager.Valid, IOManager.Valid, Share, Rest;
    var sched := new Scheduler([0, 1]);
    var timers := new TimerManager(0);
    iom := new IOManager(sched, timers);
    label L:
    BothIdle(sched);
    iom.Beside@L();
  }

  method BothIdle(s: Scheduler)
    requires s.Valid() && s.workers == [Worker(0, Scanning, null), Worker(1, Scanning, null)] && s.fibers == []
    requires forall f :: f in s.idlers ==> f.state == INIT
    modifies s`autoStop, s`stopping, s`workers, s`idle, s.idlers
    ensures s.Valid() && s.workers == [Worker(0, Idling, null), Worker(1, Idling, null)] && |s.idlers| == 2
    ensures s.Stopping()
  {
    hide Scheduler.Valid;
    s.KnownIdlers();
    s.RequestStop();
    s.EnterIdle(0);
    s.EnterIdle(1);
    s.DrainedWhenStopping();
  }

  /** A worker has collected the function of an expired timer and not queued it yet; the stopping test of
      another worker sees no timer and no task, and ends that worker's idle fiber. The function is not lost:
      the first worker is still in its loop, queues it and takes it. */
  method StopsWhileCollected(cb: Callback) returns (iom: IOManager, cbs: seq<Option<Callback>>, stop: bool)
    ensures stop && cbs == [Some(cb)] && |iom.sched.workers| == |iom.sched.idlers| == 2
    ensures iom.sched.workers[0].phase == Picked(Task(null, Some(cb), -1)) && iom.sched.idlers[1].state == TERM
  {
    hide Scheduler.Valid, TimerManager.Valid, IOManager.Valid, Share, Rest, Wrap;
    iom := TwoIdle();
    cbs := CollectOne(iom.timers, cb);
    var timeout, wait;
    stop, timeout, wait := iom.IdleCheck(1, 10);
    iom.Underlying();
    var need := iom.sched.ScheduleBatch(cbs);
    iom.sched.LeaveIdle(0, false);
    var task := iom.sched.fibers[0];
    assert iom.sched.Runnable(task, 0);
    var tickle, at := iom.sched.Dequeue(0);
  }

  /** Registrations from a thread that has no scheduler: the wake-up would follow a null pointer. */
  method NoScheduler(cb: Callback) returns (iom: IOManager)
    ensures |iom.views| == 32 && READ in iom.views[0].events && iom.views[0].read.scheduler == null && !iom.Valid()
  {
    hide Scheduler.Valid, TimerManager.Valid, IOManager.Valid, Share, Rest, View.With;
    var sched := new Scheduler([0]);
    var timers := new TimerManager(0);
    var f := sched.Create(None);
    iom := new IOManager(sched, timers);
    var rt := iom.AddEvent(0, READ, Some(cb), f, null, false);
  }

  /** Two threads find the table of 32 too small, one for descriptor 100 and one for descriptor 40. The first
      grows it to 150 and arms its event; the second then makes it 60 and forgets that event. */
  method GrowThenShrink(cb: Callback) returns (iom: IOManager)
    ensures iom.pending == 1 && |iom.views| == 60 && (forall i :: 0 <= i < 60 ==> iom.views[i] == CLOSED)
    ensures !iom.Kept()
  {
    hide Scheduler.Valid, TimerManager.Valid, IOManager.Valid, IOManager.Kept, Share, Rest, View.With;
    var sched := new Scheduler([0]);
    var timers := new TimerManager(0);
    var f := sched.Create(None);
    iom := new IOManager(sched, timers);
    var rt := iom.AddEvent(100, READ, Some(cb), f, sched, false);
    iom.KeptNow();
    iom.Resize(60);
  }

  /** A registration and its cancellation: what is queued is the given function, or without one the caller. */
  method AddedThenCancelled(iom: IOManager, fd: nat, e: Event, cb: Option<Callback>, caller: Fiber)
    returns (rt: AddResult)
    requires iom.Valid() && caller in iom.sched.all
    requires cb.None? ==> caller.state == EXEC && iom.sched.MayWake(caller)
    modifies iom, iom.contexts, iom.sched`parked, iom.sched`fibers, iom.sched`issued
    ensures rt == Added ==> iom.sched.fibers == old(iom.sched.fibers)
                                                + [if cb.Some? then Task(null, cb, -1) else Task(caller, None, -1)]
  {
    hide IOManager.Valid, Scheduler.MayWake, View.With, View.At, WakeUp, Registrant, Rest, Sleepers;
    rt := iom.AddEvent(fd, e, cb, caller, iom.sched, false);
    if rt == Added {
      iom.ArmedNow(fd, e);
      assert forall i :: 0 <= i < |iom.contexts| ==> iom.contexts[i] in old(iom.contexts) || fresh(iom.contexts[i]);
      var r := iom.CancelEvent(fd, e, false);
    }
  }

  lemma SingleReport(events: set<Event>, e: Event, broken: bool)
    requires events == {e}
    ensures !(forall x: Event :: x in events ==> !broken && x !in {e})
    ensures (forall x: Event :: broken || x in {e} ==> x in events) <==> !broken
    ensures READ in {e} <==> WRITE !in {e}
  {
    var other := if e == READ then WRITE else READ;
    assert e in events && other !in events;
  }

  /** A registration of one direction and a report of it, with nothing else armed on the descriptor. */
  method AddedThenReported(iom: IOManager, fd: nat, e: Event, cb: Option<Callback>, caller: Fiber, broken: bool)
    returns (rt: AddResult, ok: bool)
    requires iom.Valid() && caller in iom.sched.all
    requires cb.None? ==> caller.state == EXEC && iom.sched.MayWake(caller)
    requires ViewAt(iom.views, fd).events == {}
    modifies iom, iom.contexts, iom.sched`parked, iom.sched`fibers, iom.sched`issued
    ensures rt == Added ==> (ok <==> !broken)
    ensures rt == Added && ok ==>
              iom.sched.fibers == old(iom.sched.fibers)
                                  + [if cb.Some? then Task(null, cb, -1) else Task(caller, None, -1)]
  {
    hide IOManager.Valid, Scheduler.MayWake, View.With, View.At, WakeUp, Registrant, Rest, Real, Cleared, Pairs;
    hide Numbers, HowMany, WakeUps;
    ok := true;
    rt := iom.AddEvent(fd, e, cb, caller, iom.sched, false);
    if rt == Added {
      iom.ArmedNow(fd, e);
      assert forall i :: 0 <= i < |iom.contexts| ==> iom.contexts[i] in old(iom.contexts) || fresh(iom.contexts[i]);
      SingleReport(iom.views[fd].events, e, broken);
      ok := iom.HandleReady(fd, {e}, broken, false);
    }
  }

  /** A hang-up of a descriptor on which only reading is armed: the assertion in triggerEvent fails. */
  method HangUp(cb: Callback) returns (ok: bool)
    ensures !ok
  {
    hide Scheduler.Valid, TimerManager.Valid, IOManager.Valid, Share, Rest, View.With;
    var sched := new Scheduler([0]);
    var timers := new TimerManager(0);
    var f := sched.Create(None);
    var iom := new IOManager(sched, timers);
    var rt := iom.AddEvent(0, READ, Some(cb), f, sched, false);
    iom.Underlying();
    ok := iom.HandleReady(0, {}, true, false);
  }
}
