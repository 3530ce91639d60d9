/** Scheduler (scheduler.cpp, scheduler.h): workers that take tickets from a shared queue and run fibers.
    Each method is one step of one worker or of a running fiber; any interleaving of steps is a run.
    The local variables of each worker's run loop are kept in `workers`. */
module Schedulers {
  import opened Prelude
  import opened Fibers

  /** FiberAndThread: a fiber or a function, and the thread it must run on (-1 for any). */
  datatype Task = Task(fiber: Fiber?, cb: Option<Callback>, thread: int)

  /** A wake-up: run this fiber's next segment, or call this function. */
  datatype Ticket = OfFiber(fiber: Fiber) | OfCallback(cb: Callback)

  datatype Phase =
    | Scanning
    | Picked(task: Task)
    | Running(fiber: Fiber, ticket: Ticket)
    | Idling
    | Exited

  /** One run loop: its thread, where it is, and its spare fiber for functions (cb_fiber). */
  datatype Worker = Worker(thread: int, phase: Phase, spare: Fiber?)

  // ----- counting -----

  datatype Role = Picking | Executing | Owning

  function Hit(w: Worker, f: Fiber, role: Role): nat {
    match role
    case Picking => if w.phase.Picked? && w.phase.task.fiber == f then 1 else 0
    case Executing => if w.phase.Running? && w.phase.fiber == f then 1 else 0
    case Owning => if w.spare == f then 1 else 0
  }

  /** The fiber that a worker holds in its hand. */
  function HandOf(w: Worker): Fiber? {
    match w.phase
    case Picked(t) => t.fiber
    case Running(f, _) => f
    case _ => null
  }

  /** Two phases of a worker that concern no fiber but f. */
  predicate Only(w: Worker, v: Worker, f: Fiber?) {
    && (HandOf(w) == null || HandOf(w) == f)
    && (HandOf(v) == null || HandOf(v) == f)
    && (w.spare == v.spare || ((w.spare == null || w.spare == f) && (v.spare == null || v.spare == f)))
  }

  lemma OnlyHits(w: Worker, v: Worker, f: Fiber?, g: Fiber, role: Role)
    requires Only(w, v, f) && g != f
    ensures Hit(w, g, role) == Hit(v, g, role)
  {
  }

  /** The numbers of the three roles of f before and after worker w became v. */
  predicate Changed(w: Worker, v: Worker, f: Fiber, p: nat, p': nat, e: nat, e': nat, o: nat, o': nat) {
    && p' + (if w.phase.Picked? && w.phase.task.fiber == f then 1 else 0) == p + (if v.phase.Picked?
    && v.phase.task.fiber == f then 1 else 0)
    && e' + (if w.phase.Running? && w.phase.fiber == f then 1 else 0) == e + (if v.phase.Running?
    && v.phase.fiber == f then 1 else 0)
    && o' + (if w.spare == f then 1 else 0) == o + (if v.spare == f then 1 else 0)
  }

  lemma AllChanged(ws: seq<Worker>, i: nat, v: Worker, f: Fiber)
    requires i < |ws|
    ensures var us := ws[i := v];
            Changed(ws[i], v, f, Count(ws, f, Picking), Count(us, f, Picking),
                    Count(ws, f, Executing), Count(us, f, Executing), Count(ws, f, Owning), Count(us, f, Owning))
  {
    CountUpdate(ws, i, v, f, Picking);
    CountUpdate(ws, i, v, f, Executing);
    CountUpdate(ws, i, v, f, Owning);
  }

  /** How many workers have f in the given role. */
  function Count(ws: seq<Worker>, f: Fiber, role: Role): nat {
    if ws == [] then 0 else Count(ws[..|ws| - 1], f, role) + Hit(ws[|ws| - 1], f, role)
  }

  lemma {:induction false} CountUpdate(ws: seq<Worker>, i: nat, w: Worker, f: Fiber, role: Role)
    requires i < |ws|
    ensures Count(ws[i := w], f, role) + Hit(ws[i], f, role) == Count(ws, f, role) + Hit(w, f, role)
  {
    var last := |ws| - 1;
    if i == last {
      assert ws[i := w][..last] == ws[..last];
    } else {
      CountUpdate(ws[..last], i, w, f, role);
      assert ws[i := w][..last] == ws[..last][i := w];
    }
  }

  lemma {:induction false} CountAtLeast(ws: seq<Worker>, i: nat, f: Fiber, role: Role)
    requires i < |ws|
    ensures Hit(ws[i], f, role) <= Count(ws, f, role)
  {
    if i < |ws| - 1 {
      CountAtLeast(ws[..|ws| - 1], i, f, role);
    }
  }

  lemma {:induction false} CountTwo(ws: seq<Worker>, i: nat, j: nat, f: Fiber, role: Role)
    requires i < j < |ws|
    ensures Hit(ws[i], f, role) + Hit(ws[j], f, role) <= Count(ws, f, role)
  {
    if j < |ws| - 1 {
      CountTwo(ws[..|ws| - 1], i, j, f, role);
    } else {
      CountAtLeast(ws[..|ws| - 1], i, f, role);
    }
  }

  lemma {:induction false} CountNone(ws: seq<Worker>, f: Fiber, role: Role)
    requires forall i :: 0 <= i < |ws| ==> Hit(ws[i], f, role) == 0
    ensures Count(ws, f, role) == 0
  {
    if ws != [] {
      CountNone(ws[..|ws| - 1], f, role);
    }
  }

  /** How many queued tasks are for f. */
  function Queued(q: seq<Task>, f: Fiber): nat {
    if q == [] then 0 else Queued(q[..|q| - 1], f) + (if q[|q| - 1].fiber == f then 1 else 0)
  }

  lemma QueuedPush(q: seq<Task>, t: Task, f: Fiber)
    ensures Queued(q + [t], f) == Queued(q, f) + if t.fiber == f then 1 else 0
  {
    assert (q + [t])[..|q|] == q;
  }

  function Erased(q: seq<Task>, i: nat): seq<Task>
    requires i < |q|
  {
    q[..i] + q[i + 1..]
  }

  lemma ErasedLast(q: seq<Task>, i: nat)
    requires i < |q|
    ensures var last := |q| - 1;
            Erased(q, i) == if i == last then q[..last] else Erased(q[..last], i) + [q[last]]
  {
  }

  lemma {:induction false} QueuedErase(q: seq<Task>, i: nat, f: Fiber)
    requires i < |q|
    ensures Queued(Erased(q, i), f) + (if q[i].fiber == f then 1 else 0) == Queued(q, f)
  {
    hide Erased;
    var last := |q| - 1;
    ErasedLast(q, i);
    if i < last {
      QueuedErase(q[..last], i, f);
      QueuedPush(Erased(q[..last], i), q[last], f);
    }
  }

  lemma {:induction false} QueuedAt(q: seq<Task>, i: nat)
    requires i < |q| && q[i].fiber != null
    ensures Queued(q, q[i].fiber) >= 1
  {
    if i < |q| - 1 {
      QueuedAt(q[..|q| - 1], i);
    }
  }

  lemma {:induction false} QueuedNone(q: seq<Task>, f: Fiber)
    requires forall i :: 0 <= i < |q| ==> q[i].fiber != f
    ensures Queued(q, f) == 0
  {
    if q != [] {
      QueuedNone(q[..|q| - 1], f);
    }
  }

  // ----- owners of wake-ups -----

  /** The fibers whose wake-up is in the hands of one owner, and the part of the others. */
  ghost function Mine(parked: map<Fiber, object>, owner: object): set<Fiber> {
    set f | f in parked && parked[f] == owner
  }

  ghost function Share(parked: map<Fiber, object>, owner: object): multiset<Fiber> {
    multiset(Mine(parked, owner))
  }

  ghost function Rest(parked: map<Fiber, object>, owner: object): map<Fiber, object> {
    map f | f in parked && parked[f] != owner :: parked[f]
  }

  lemma ShareAdd(parked: map<Fiber, object>, f: Fiber, owner: object)
    requires f !in parked
    ensures Share(parked[f := owner], owner) == Share(parked, owner) + multiset{f}
    ensures Rest(parked[f := owner], owner) == Rest(parked, owner)
  {
    assert Mine(parked[f := owner], owner) == Mine(parked, owner) + {f};
  }

  lemma ShareRemove(parked: map<Fiber, object>, f: Fiber, owner: object)
    requires f in parked && parked[f] == owner
    ensures Share(parked - {f}, owner) == Share(parked, owner) - multiset{f}
    ensures Rest(parked - {f}, owner) == Rest(parked, owner)
  {
    assert Mine(parked - {f}, owner) == Mine(parked, owner) - {f};
  }

  lemma ShareHas(parked: map<Fiber, object>, f: Fiber, owner: object)
    ensures Share(parked, owner)[f] == if f in parked && parked[f] == owner then 1 else 0
  {
  }

  lemma NothingShared(parked: map<Fiber, object>, owner: object)
    requires forall f :: f in parked ==> parked[f] != owner
    ensures Share(parked, owner) == multiset{}
  {
    assert Mine(parked, owner) == {};
  }

  /** What one owner does leaves the shares of all others alone. */
  lemma ShareOfOther(before: map<Fiber, object>, after: map<Fiber, object>, owner: object, other: object)
    requires Rest(before, owner) == Rest(after, owner) && other != owner
    ensures Share(before, other) == Share(after, other)
  {
    forall f
      ensures f in before && before[f] == other <==> f in after && after[f] == other
    {
      assert f in before && before[f] == other <==> f in Rest(before, owner) && Rest(before, owner)[f] == other;
      assert f in after && after[f] == other <==> f in Rest(after, owner) && Rest(after, owner)[f] == other;
    }
    assert Mine(before, other) == Mine(after, other);
  }

  // ----- tickets -----

  function TicketOf(t: Task): Ticket
    requires Proper(t)
  {
    if t.fiber != null then OfFiber(t.fiber) else OfCallback(t.cb.value)
  }

  predicate Proper(t: Task) {
    t.fiber != null <==> t.cb.None?
  }

  predicate AllProper(q: seq<Task>) {
    forall i :: 0 <= i < |q| ==> Proper(q[i])
  }

  function QueueTickets(q: seq<Task>): multiset<Ticket>
    requires AllProper(q)
  {
    if q == [] then multiset{}
    else QueueTickets(q[..|q| - 1]) + multiset{TicketOf(q[|q| - 1])}
  }

  predicate ProperWorker(w: Worker) {
    w.phase.Picked? ==> Proper(w.phase.task)
  }

  function InHand(w: Worker): multiset<Ticket>
    requires ProperWorker(w)
  {
    match w.phase
    case Picked(t) => multiset{TicketOf(t)}
    case Running(_, ticket) => multiset{ticket}
    case _ => multiset{}
  }

  predicate AllProperWorkers(ws: seq<Worker>) {
    forall i :: 0 <= i < |ws| ==> ProperWorker(ws[i])
  }

  /** The tickets that workers hold, from taking them off the queue to the end of the segment. */
  function Held(ws: seq<Worker>): multiset<Ticket>
    requires AllProperWorkers(ws)
  {
    if ws == [] then multiset{} else Held(ws[..|ws| - 1]) + InHand(ws[|ws| - 1])
  }

  lemma QueueTicketsPush(q: seq<Task>, t: Task)
    requires AllProper(q) && Proper(t)
    ensures AllProper(q + [t]) && QueueTickets(q + [t]) == QueueTickets(q) + multiset{TicketOf(t)}
  {
    assert (q + [t])[..|q|] == q;
  }

  lemma ErasedFrom(q: seq<Task>, i: nat, known: set<Fiber>)
    requires i < |q| && forall j :: 0 <= j < |q| && q[j].fiber != null ==> q[j].fiber in known
    ensures forall j :: 0 <= j < |Erased(q, i)| && Erased(q, i)[j].fiber != null ==> Erased(q, i)[j].fiber in known
  {
  }

  lemma ErasedProper(q: seq<Task>, i: nat)
    requires AllProper(q) && i < |q|
    ensures Proper(q[i]) && AllProper(Erased(q, i))
  {
  }

  lemma {:induction false} QueueTicketsErase(q: seq<Task>, i: nat)
    requires AllProper(q) && i < |q|
    ensures Proper(q[i]) && AllProper(Erased(q, i))
    ensures QueueTickets(q) == QueueTickets(Erased(q, i)) + multiset{TicketOf(q[i])}
  {
    hide TicketOf, Erased;
    var last := |q| - 1;
    ErasedProper(q, i);
    ErasedProper(q, last);
    ErasedLast(q, i);
    if i < last {
      QueueTicketsErase(q[..last], i);
      QueueTicketsPush(Erased(q[..last], i), q[last]);
    }
  }

  lemma {:induction false} HeldUpdate(ws: seq<Worker>, i: nat, w: Worker)
    requires AllProperWorkers(ws) && i < |ws| && ProperWorker(w)
    ensures AllProperWorkers(ws[i := w])
    ensures Held(ws[i := w]) + InHand(ws[i]) == Held(ws) + InHand(w)
  {
    hide InHand;
    var last := |ws| - 1;
    if i == last {
      assert ws[i := w][..last] == ws[..last];
    } else {
      HeldUpdate(ws[..last], i, w);
      assert ws[i := w][..last] == ws[..last][i := w];
      AddBoth(Held(ws[..last][i := w]), InHand(ws[i]), Held(ws[..last]), InHand(w), InHand(ws[last]));
    }
  }

  lemma {:induction false} HeldIncludes(ws: seq<Worker>, i: nat)
    requires AllProperWorkers(ws) && i < |ws|
    ensures InHand(ws[i]) <= Held(ws)
  {
    hide InHand;
    if i < |ws| - 1 {
      HeldIncludes(ws[..|ws| - 1], i);
    }
  }

  lemma TakeAndAdd<T>(a: multiset<T>, x: multiset<T>, b: multiset<T>, y: multiset<T>)
    requires a + x == b + y && x <= b
    ensures a == b - x + y
  {
    forall e
      ensures a[e] == (b - x + y)[e]
    {
      assert (a + x)[e] == (b + y)[e];
    }
  }

  lemma AddBoth<T>(a: multiset<T>, x: multiset<T>, b: multiset<T>, y: multiset<T>, c: multiset<T>)
    requires a + x == b + y
    ensures a + c + x == b + c + y
  {
    assert a + c + x == (a + x) + c;
    assert b + c + y == (b + y) + c;
  }

  lemma {:induction false} HeldNone(ws: seq<Worker>)
    requires AllProperWorkers(ws)
    ensures |Held(ws)| == 0 <==> forall i :: 0 <= i < |ws| ==> !ws[i].phase.Picked? && !ws[i].phase.Running?
  {
    if ws != [] {
      HeldNone(ws[..|ws| - 1]);
      assert |Held(ws)| == |Held(ws[..|ws| - 1])| + |InHand(ws[|ws| - 1])|;
    }
  }

  /** How many workers are in their idle fiber. */
  function Idlers(ws: seq<Worker>): nat {
    if ws == [] then 0 else Idlers(ws[..|ws| - 1]) + (if ws[|ws| - 1].phase.Idling? then 1 else 0)
  }

  lemma {:induction false} IdlersUpdate(ws: seq<Worker>, i: nat, w: Worker)
    requires i < |ws|
    ensures Idlers(ws[i := w]) + (if ws[i].phase.Idling? then 1 else 0)
         == Idlers(ws) + if w.phase.Idling? then 1 else 0
  {
    var last := |ws| - 1;
    if i == last {
      assert ws[i := w][..last] == ws[..last];
    } else {
      IdlersUpdate(ws[..last], i, w);
      assert ws[i := w][..last] == ws[..last][i := w];
    }
  }

  method FreshFibers(n: nat) returns (fs: seq<Fiber>)
    ensures |fs| == n && fresh(fs)
    ensures forall i :: 0 <= i < n ==> fs[i].state == INIT
    ensures forall i, j :: 0 <= i < j < n ==> fs[i] != fs[j]
  {
    fs := [];
    while |fs| < n
      invariant |fs| <= n
      invariant forall i :: 0 <= i < |fs| ==> fresh(fs[i]) && fs[i].state == INIT
      invariant forall i, j :: 0 <= i < j < |fs| ==> fs[i] != fs[j]
    {
      var f := new Fiber(None);
      fs := fs + [f];
    }
  }

  lemma {:induction false} NothingHeld(ws: seq<Worker>)
    requires AllProperWorkers(ws) && forall i :: 0 <= i < |ws| ==> ws[i].phase.Scanning?
    ensures Held(ws) == multiset{} && Idlers(ws) == 0
  {
    if ws != [] {
      NothingHeld(ws[..|ws| - 1]);
    }
  }

  lemma {:induction false} OwnerOf(ws: seq<Worker>, f: Fiber) returns (i: nat)
    requires Count(ws, f, Owning) > 0
    ensures i < |ws| && ws[i].spare == f
  {
    if ws[|ws| - 1].spare == f {
      i := |ws| - 1;
    } else {
      i := OwnerOf(ws[..|ws| - 1], f);
    }
  }

  /** The queue entries of a batch: functions for any thread, without the empty ones. */
  function CallbackTasks(cbs: seq<Option<Callback>>): seq<Task> {
    if cbs == [] then []
    else
      var last := cbs[|cbs| - 1];
      CallbackTasks(cbs[..|cbs| - 1]) + if last.Some? then [Task(null, last, -1)] else []
  }

  /** A batch is queued front to back, one entry for each function. */
  lemma {:induction false} CallbackTasksAppend(a: seq<Option<Callback>>, b: seq<Option<Callback>>)
    ensures CallbackTasks(a + b) == CallbackTasks(a) + CallbackTasks(b)
  {
    if b == [] {
      assert a + b == a;
    } else {
      CallbackTasksAppend(a, b[..|b| - 1]);
      assert (a + b)[..|a + b| - 1] == a + b[..|b| - 1];
    }
  }

  lemma CallbackTasksOne(c: Callback)
    ensures CallbackTasks([]) == [] && CallbackTasks([None]) == []
    ensures CallbackTasks([Some(c)]) == [Task(null, Some(c), -1)]
  {
    var none: seq<Option<Callback>> := [None];
    assert none[..0] == [] && [Some(c)][..0] == [];
  }

  lemma {:induction false} CallbackTasksAt(cbs: seq<Option<Callback>>)
    requires None !in cbs
    ensures |CallbackTasks(cbs)| == |cbs|
    ensures forall i :: 0 <= i < |cbs| ==> CallbackTasks(cbs)[i] == Task(null, cbs[i], -1)
  {
    if cbs != [] {
      CallbackTasksAt(cbs[..|cbs| - 1]);
    }
  }

  /** The spare after a segment: kept only if it ran the worker's function to its end. */
  function SpareAfter(w: Worker, how: Leave): Fiber?
    requires w.phase.Running?
  {
    if w.spare == w.phase.fiber && !how.Final() then null else w.spare
  }

  /** The state of the fiber after a segment; a spare that has ended is reset. */
  function StateAfter(how: Leave, spare: bool): State {
    match how
    case YieldReady => READY
    case YieldHold => HOLD
    case Bare => HOLD
    case Finish => if spare then INIT else TERM
    case Throw => if spare then INIT else EXCEPT
  }

  class Scheduler {
    var fibers: seq<Task>
    var active: nat
    var idle: nat
    var autoStop: bool
    var stopping: bool
    var workers: seq<Worker>
    /** The idle fiber of each worker (idle_fiber); none of them is ever queued. */
    const idlers: seq<Fiber>

    /** Every fiber that can be queued; and those whose next wake-up is not in the queue but in the hands
        of an owner, which is an I/O manager with an armed event or a semaphore with a waiter. */
    ghost var all: set<Fiber>
    ghost var parked: map<Fiber, object>
    /** Every ticket ever put on the queue, and those whose segment is over. */
    ghost var issued: multiset<Ticket>
    ghost var consumed: multiset<Ticket>

    ghost predicate Shape()
      reads this`fibers, this`workers, this`all, this`parked
    {
      && AllProper(fibers) && AllProperWorkers(workers)
      && (forall i :: 0 <= i < |fibers| && fibers[i].fiber != null ==> fibers[i].fiber in all)
      && (forall i :: 0 <= i < |workers| ==> Known(workers[i]))
      && (forall f :: f in parked ==> f in all)
    }

    ghost predicate Known(w: Worker)
      reads this`all
    {
      && (w.phase.Picked? && w.phase.task.fiber != null ==> w.phase.task.fiber in all)
      && (w.phase.Running? ==> w.phase.fiber in all)
      && (w.spare != null ==> w.spare in all)
    }

    /** The counters are exact and no ticket is lost or made up. */
    ghost predicate Counters()
      reads this`fibers, this`workers, this`active, this`idle, this`issued, this`consumed
    {
      && AllProper(fibers) && AllProperWorkers(workers)
      && active == |Held(workers)|
      && idle == Idlers(workers)
      && issued == QueueTickets(fibers) + Held(workers) + consumed
    }

    /** Wake-ups of f that are still to come. */
    ghost function Pending(f: Fiber): nat
      reads this`fibers, this`parked
    {
      Queued(fibers, f) + if f in parked then 1 else 0
    }

    ghost function In(f: Fiber, role: Role): nat
      reads this`workers
    {
      Count(workers, f, role)
    }

    /** A fiber executes in at most one worker, and then no worker has picked it; it has at most one
        wake-up outstanding, in the queue, parked or just picked. */
    ghost predicate Safe(f: Fiber)
      reads this`fibers, this`parked, this`workers, f`state
    {
      if f.state == EXEC then In(f, Executing) == 1 && In(f, Picking) == 0 && Pending(f) <= 1
      else In(f, Executing) == 0 && Pending(f) + In(f, Picking) <= 1
    }

    ghost predicate AllSafe()
      reads this`fibers, this`parked, this`workers, this`all, all`state
    {
      forall f :: f in all ==> Safe(f)
    }

    /** A worker's spare fiber is its own; it either runs the worker's function or waits unused. */
    ghost predicate SpareOk(w: Worker)
      reads this`fibers, this`parked, this`workers, this`all, all`state
    {
      && (w.phase.Running? ==>
            if w.phase.ticket.OfCallback? then w.spare == w.phase.fiber
            else w.phase.ticket.fiber == w.phase.fiber && w.spare != w.phase.fiber)
      && (w.spare != null ==>
            && w.spare in all && In(w.spare, Owning) == 1
            && (RunsSpare(w) || Unused(w.spare)))
    }

    static predicate RunsSpare(w: Worker) {
      w.phase.Running? && w.phase.fiber == w.spare
    }

    ghost predicate Unused(f: Fiber)
      reads this`fibers, this`parked, this`workers, f`state
    {
      f.state == INIT && Pending(f) + In(f, Picking) == 0
    }

    ghost predicate Spares()
      reads this`fibers, this`parked, this`workers, this`all, all`state
    {
      forall i :: 0 <= i < |workers| ==> SpareOk(workers[i])
    }

    /** Each worker's idle fiber is its own, executes exactly while the worker idles, and has ended when
        the worker has left its loop. */
    ghost predicate Resting(ws: seq<Worker>)
      reads this`all, idlers`state
    {
      && |idlers| == |ws|
      && (forall i :: 0 <= i < |idlers| ==> idlers[i] !in all && RestsAs(idlers[i].state, ws[i].phase))
      && (forall i, j :: 0 <= i < j < |idlers| ==> idlers[i] != idlers[j])
    }

    static predicate RestsAs(s: State, p: Phase) {
      match p
      case Idling => s == EXEC
      case Exited => s == TERM
      case _ => s in {INIT, HOLD, TERM}
    }

    ghost predicate Valid()
      reads this, all, idlers
    {
      Shape() && Counters() && AllSafe() && Spares() && Resting(workers)
    }

    /** n workers at the top of their loops. */
    constructor (threads: seq<int>)
      requires threads != []
      ensures Valid() && fibers == [] && all == {} && parked == map[] && idle == 0 && !autoStop && stopping
      ensures |workers| == |threads| && forall i :: 0 <= i < |workers| ==>
                workers[i] == Worker(threads[i], Scanning, null)
      ensures fresh(idlers) && forall f :: f in idlers ==> f.state == INIT
    {
      var ids := FreshFibers(|threads|);
      idlers := ids;
      fibers, active, idle, autoStop, stopping := [], 0, 0, false, true;
      workers := seq(|threads|, i requires 0 <= i < |threads| => Worker(threads[i], Scanning, null));
      all, parked, issued, consumed := {}, map[], multiset{}, multiset{};
      new;
      NothingHeld(workers);
    }

    // ----- what the invariants say -----

    lemma KnownIdlers()
      requires Valid()
      ensures |idlers| == |workers|
      ensures forall i, j :: 0 <= i < j < |idlers| ==> idlers[i] != idlers[j]
    {
      hide Shape, Counters, AllSafe, Spares;
    }

    /** No fiber is in two workers' hands. */
    lemma SingleExecution(i: nat, j: nat)
      requires Valid() && i < j < |workers|
      ensures forall f: Fiber :: f in all ==>
                Hit(workers[i], f, Picking) + Hit(workers[i], f, Executing)
                + Hit(workers[j], f, Picking) + Hit(workers[j], f, Executing) <= 1
    {
      forall f | f in all
        ensures Hit(workers[i], f, Picking) + Hit(workers[i], f, Executing)
                + Hit(workers[j], f, Picking) + Hit(workers[j], f, Executing) <= 1
      {
        assert Safe(f);
        CountTwo(workers, i, j, f, Picking);
        CountTwo(workers, i, j, f, Executing);
      }
    }

    /** stopping(): nothing is queued and nobody works. */
    predicate Stopping()
      reads this`autoStop, this`stopping, this`fibers, this`active
    {
      autoStop && stopping && fibers == [] && active == 0
    }

    /** The scheduler says it can stop exactly if it is asked to and every ticket ever issued has been consumed:
        the counter is exact on all branches of the run loop. */
    lemma DrainedWhenStopping()
      requires Valid()
      ensures Stopping() <==> autoStop && stopping && issued == consumed
      ensures active == 0 <==> forall i :: 0 <= i < |workers| ==>
                !workers[i].phase.Picked? && !workers[i].phase.Running?
    {
      HeldNone(workers);
    }

    /** When nobody works, no queued fiber executes. */
    lemma NobodyExecutes(at: nat)
      requires Valid() && at < |fibers| && fibers[at].fiber != null
      ensures fibers[at].fiber.state == EXEC ==>
                exists i :: 0 <= i < |workers| && workers[i].phase.Running?
                  && workers[i].phase.fiber == fibers[at].fiber
    {
      hide Counters, Spares, Resting;
      var f := fibers[at].fiber;
      assert Safe(f);
      if forall i :: 0 <= i < |workers| ==> Hit(workers[i], f, Executing) == 0 {
        CountNone(workers, f, Executing);
      }
    }

    lemma NobodyIdles()
      requires Valid() && idle == 0
      ensures forall i :: 0 <= i < |workers| ==> !workers[i].phase.Idling?
    {
      hide Shape, AllSafe, Spares, Resting, Held, QueueTickets, Idlers, AllProper, AllProperWorkers;
      forall i | 0 <= i < |workers|
        ensures !workers[i].phase.Idling?
      {
        IdlersUpdate(workers, i, workers[i].(phase := Scanning));
      }
    }

    // ----- wake-ups -----

    /** The condition under which one more wake-up of f may be issued: none is outstanding, and f is
        not some worker's unused spare. */
    ghost predicate MayWake(f: Fiber)
      reads this`fibers, this`parked, this`workers, f`state
    {
      Pending(f) + In(f, Picking) == 0 && (f.state == EXEC || In(f, Owning) == 0)
    }

    /** schedule(fiber, thread): scheduleNoLock on a fiber. */
    method Schedule(f: Fiber, thread: int) returns (needTickle: bool)
      requires Valid() && f in all && MayWake(f)
      modifies this`fibers, this`issued
      ensures Valid() && needTickle == (old(fibers) == [])
      ensures fibers == old(fibers) + [Task(f, None, thread)]
      ensures issued == old(issued) + multiset{OfFiber(f)}
    {
      needTickle := fibers == [];
      Push(Task(f, None, thread));
    }

    /** schedule(cb, thread): an empty function is not queued. */
    method ScheduleCallback(cb: Option<Callback>, thread: int) returns (needTickle: bool)
      requires Valid()
      modifies this`fibers, this`issued
      ensures Valid() && needTickle == (old(fibers) == [])
      ensures fibers == old(fibers) + if cb.Some? then [Task(null, cb, thread)] else []
      ensures issued == old(issued) + if cb.Some? then multiset{OfCallback(cb.value)} else multiset{}
    {
      needTickle := fibers == [];
      if cb.Some? {
        Push(Task(null, cb, thread));
      }
    }

    /** m_fibers.push_back. */
    method Push(t: Task)
      requires Valid() && Proper(t) && (t.fiber != null ==> t.fiber in all && MayWake(t.fiber))
      modifies this`fibers, this`issued
      ensures Valid() && fibers == old(fibers) + [t]
      ensures issued == old(issued) + multiset{TicketOf(t)}
    {
      hide Queued, Count, Held, QueueTickets, Idlers, Resting;
      QueueTicketsPush(fibers, t);
      forall f {
        QueuedPush(fibers, t, f);
      }
      fibers := fibers + [t];
      issued := issued + multiset{TicketOf(t)};
    }

    /** schedule(begin, end): a batch of functions, such as those of expired timers. */
    method ScheduleBatch(cbs: seq<Option<Callback>>) returns (needTickle: bool)
      requires Valid()
      modifies this`fibers, this`issued
      ensures Valid() && needTickle == (old(fibers) == [] && cbs != [])
      ensures fibers == old(fibers) + CallbackTasks(cbs)
      ensures None !in cbs ==>
                && |fibers| == |old(fibers)| + |cbs| && old(fibers) <= fibers
                && forall i :: 0 <= i < |cbs| ==> fibers[|old(fibers)| + i] == Task(null, cbs[i], -1)
    {
      hide Shape, Counters, AllSafe, Spares, Resting;
      needTickle := false;
      assert cbs[..0] == [];
      for i := 0 to |cbs|
        invariant Valid() && fibers == old(fibers) + CallbackTasks(cbs[..i])
        invariant needTickle == (old(fibers) == [] && i > 0)
      {
        var need := ScheduleCallback(cbs[i], -1);
        needTickle := need || needTickle;
        assert cbs[..i + 1][..i] == cbs[..i];
      }
      assert cbs[..|cbs|] == cbs;
      if None !in cbs {
        CallbackTasksAt(cbs);
      }
    }

    /** A fiber created by the program. */
    method Create(cb: Option<Callback>) returns (f: Fiber)
      requires Valid()
      modifies this`all
      ensures Valid() && fresh(f) && all == old(all) + {f} && f.state == INIT && f.cb == cb && MayWake(f)
    {
      f := new Fiber(cb);
      Adopt(f);
    }

    /** A fiber that nothing refers to yet joins. */
    ghost method Adopt(f: Fiber)
      requires Valid() && f !in all && f !in idlers && f.state == INIT
      modifies this`all
      ensures Valid() && all == old(all) + {f} && MayWake(f) && In(f, Owning) == 0 && In(f, Executing) == 0 && Unused(f)
    {
      hide Counters, Count, Queued;
      Unknown(f);
      all := all + {f};
      assert AllSafe() by { hide Spares; }
    }

    lemma Unknown(f: Fiber)
      requires Shape() && f !in all
      ensures Pending(f) == 0 && In(f, Picking) == 0 && In(f, Executing) == 0 && In(f, Owning) == 0
    {
      assert f !in parked;
      QueuedNone(fibers, f);
      assert forall i :: 0 <= i < |workers| ==> Known(workers[i]);
      CountNone(workers, f, Picking);
      CountNone(workers, f, Executing);
      CountNone(workers, f, Owning);
    }

    /** The running fiber f hands its next wake-up to an owner. */
    ghost method Park(f: Fiber, owner: object)
      requires Valid() && f in all && MayWake(f)
      modifies this`parked
      ensures Valid() && f !in old(parked) && parked == old(parked)[f := owner]
      ensures Share(parked, owner) == old(Share(parked, owner)) + multiset{f}
      ensures Rest(parked, owner) == old(Rest(parked, owner))
    {
      hide Counters, Count, Queued, Resting, Share, Rest;
      ShareAdd(parked, f, owner);
      parked := parked[f := owner];
    }

    /** A wake-up that its owner drops. */
    ghost method Unpark(f: Fiber, owner: object)
      requires Valid() && f in parked && parked[f] == owner
      modifies this`parked
      ensures Valid() && parked == old(parked) - {f}
      ensures Share(parked, owner) == old(Share(parked, owner)) - multiset{f}
      ensures Rest(parked, owner) == old(Rest(parked, owner))
    {
      hide Counters, Count, Queued, Resting, Share, Rest;
      ShareRemove(parked, f, owner);
      parked := parked - {f};
      assert AllSafe() by { assert forall g :: g in all ==> old(Safe(g)); }
    }

    /** A wake-up that its owner puts on the queue: schedule(&ctx.fiber) or schedule(waiter). */
    method ScheduleParked(f: Fiber, ghost owner: object) returns (needTickle: bool)
      requires Valid() && f in parked && parked[f] == owner
      modifies this`fibers, this`issued, this`parked
      ensures Valid() && needTickle == (old(fibers) == [])
      ensures fibers == old(fibers) + [Task(f, None, -1)]
      ensures issued == old(issued) + multiset{OfFiber(f)} && parked == old(parked) - {f}
      ensures Share(parked, owner) == old(Share(parked, owner)) - multiset{f}
      ensures Rest(parked, owner) == old(Rest(parked, owner))
    {
      hide Counters, AllSafe, Spares, Resting, Count, Queued, Share, Rest;
      ParkedMayWake(f);
      Unpark(f, owner);
      needTickle := Schedule(f, -1);
    }

    lemma ParkedMayWake(f: Fiber)
      requires Valid() && f in parked
      ensures Pending(f) == 1 && Queued(fibers, f) == 0 && In(f, Picking) == 0
      ensures f in all && (f.state == EXEC || In(f, Owning) == 0)
    {
      assert Safe(f);
      if f.state != EXEC && In(f, Owning) > 0 {
        var i := OwnerOf(workers, f);
        assert SpareOk(workers[i]);
        CountAtLeast(workers, i, f, Executing);
      }
    }

    // ----- the run loop -----

    /** Whether the scan takes this task on the given thread. */
    predicate Runnable(t: Task, thread: int)
      reads t.fiber
    {
      (t.thread == -1 || t.thread == thread) && (t.fiber == null || t.fiber.state != EXEC)
    }

    /** Worker i's phase and the state of its idle fiber change together. */
    twostate lemma RestingMoves(new i: nat, new w: Worker)
      requires old(Resting(workers)) && workers == old(workers) && all == old(all) && i < |workers|
      requires forall j :: 0 <= j < |idlers| && j != i ==> idlers[j].state == old(idlers[j].state)
      requires i < |idlers| ==> RestsAs(idlers[i].state, w.phase)
      ensures Resting(workers[i := w])
    {
    }

    /** The same outside of idle fibers. */
    lemma RestingBusy(i: nat, w: Worker)
      requires Resting(workers) && i < |workers|
      requires !workers[i].phase.Idling? && !workers[i].phase.Exited? && !w.phase.Idling? && !w.phase.Exited?
      ensures Resting(workers[i := w])
    {
    }

    lemma RestingHere(i: nat)
      requires Resting(workers) && i < |workers|
      ensures |idlers| == |workers| && idlers[i] !in all && RestsAs(idlers[i].state, workers[i].phase)
      ensures forall j :: 0 <= j < |idlers| ==> idlers[j] !in all
      ensures forall j :: 0 <= j < |idlers| && j != i ==> idlers[j] != idlers[i]
    {
    }

    /** Moving worker i to another phase and spare, in numbers; only f is concerned. */
    method Move(i: nat, w: Worker, ghost f: Fiber?)
      requires Shape() && i < |workers| && ProperWorker(w) && Known(w) && Only(workers[i], w, f)
      modifies this`workers
      ensures Shape() && workers == old(workers)[i := w] && AllProperWorkers(workers) && AllProperWorkers(old(workers))
      ensures ProperWorker(old(workers)[i])
      ensures InHand(old(workers)[i]) <= Held(old(workers))
      ensures Held(workers) == Held(old(workers)) - InHand(old(workers)[i]) + InHand(w)
      ensures Idlers(workers) + (if old(workers)[i].phase.Idling? then 1 else 0)
           == Idlers(old(workers)) + if w.phase.Idling? then 1 else 0
      ensures forall g: Fiber, role: Role :: g in all && g != f ==> In(g, role) == old(In(g, role))
      ensures f != null ==> Changed(old(workers)[i], w, f, old(In(f, Picking)), In(f, Picking),
                                    old(In(f, Executing)), In(f, Executing), old(In(f, Owning)), In(f, Owning))
    {
      hide InHand, Held, Count, Idlers, Only, Hit;
      HeldUpdate(workers, i, w);
      HeldIncludes(workers, i);
      TakeAndAdd(Held(workers[i := w]), InHand(workers[i]), Held(workers), InHand(w));
      IdlersUpdate(workers, i, w);
      forall g: Fiber, role: Role | g in all && g != f
        ensures Count(workers[i := w], g, role) == Count(workers, g, role)
      {
        OnlyHits(workers[i], w, f, g, role);
        CountUpdate(workers, i, w, g, role);
      }
      if f != null {
        AllChanged(workers, i, w, f);
      }
      workers := workers[i := w];
    }

    /** The scan at the top of the loop: takes the first runnable task. `tickleMe` tells whether a task
        for another thread was passed over. `at` is where the scan stopped. */
    method Dequeue(i: nat) returns (tickleMe: bool, at: nat)
      requires Valid() && i < |workers| && workers[i].phase.Scanning?
      modifies this`fibers, this`workers, this`active
      ensures Valid() && at <= |old(fibers)|
      ensures forall j :: 0 <= j < at ==> !Runnable(old(fibers)[j], old(workers)[i].thread)
      ensures tickleMe <==> exists j :: 0 <= j < at && old(fibers)[j].thread != -1
                                         && old(fibers)[j].thread != old(workers)[i].thread
      ensures if at == |old(fibers)| then fibers == old(fibers) && workers == old(workers) && active == old(active)
              else Runnable(old(fibers)[at], old(workers)[i].thread)
                   && fibers == old(fibers)[..at] + old(fibers)[at + 1..] && active == old(active) + 1
                   && workers == old(workers)[i := old(workers)[i].(phase := Picked(old(fibers)[at]))]
    {
      hide Counters, AllSafe, Spares, Resting;
      tickleMe, at := false, 0;
      while at < |fibers|
        invariant at <= |fibers|
        invariant forall j :: 0 <= j < at ==> !Runnable(fibers[j], workers[i].thread)
        invariant tickleMe <==> exists j :: 0 <= j < at && fibers[j].thread != -1
                                            && fibers[j].thread != workers[i].thread
        invariant fibers == old(fibers) && workers == old(workers) && active == old(active)
      {
        var it := fibers[at];
        if it.thread != -1 && it.thread != workers[i].thread {
          at := at + 1;
          tickleMe := true;
          continue;
        }
        assert it.fiber != null || it.cb.Some?;  // SYLAR_ASSERT(it->fiber || it->cb)
        if it.fiber != null && it.fiber.state == EXEC {
          at := at + 1;
          continue;
        }
        Take(i, at);
        break;
      }
    }

    /** What is known of a queued fiber that does not execute: it is in no hand, and no spare. */
    lemma TaskAt(at: nat)
      requires Valid() && at < |fibers|
      ensures fibers[at].fiber != null && fibers[at].fiber.state != EXEC ==>
                Pending(fibers[at].fiber) == 1
                && In(fibers[at].fiber, Picking) == 0 && In(fibers[at].fiber, Executing) == 0
                && forall j :: 0 <= j < |workers| ==> workers[j].spare != fibers[at].fiber
    {
      var f := fibers[at].fiber;
      if f != null && f.state != EXEC {
        QueuedAt(fibers, at);
        assert Safe(f);
        forall j | 0 <= j < |workers| && workers[j].spare == f
          ensures false
        {
          assert SpareOk(workers[j]);
          CountAtLeast(workers, j, f, Executing);
        }
      }
    }

    /** ft = *it; m_fibers.erase(it); ++m_activeThreadCount. */
    method Take(i: nat, at: nat)
      requires Valid() && i < |workers| && workers[i].phase.Scanning? && at < |fibers|
      requires fibers[at].fiber == null || fibers[at].fiber.state != EXEC
      modifies this`fibers, this`workers, this`active
      ensures Valid() && fibers == Erased(old(fibers), at) && active == old(active) + 1
      ensures workers == old(workers)[i := old(workers)[i].(phase := Picked(old(fibers)[at]))]
    {
      hide Shape, Held, QueueTickets, Idlers, Erased, AllSafe, Spares, Counters, Safe, SpareOk, Changed;
      hide Pending, In, Only, Known, Resting, InHand, TicketOf, Proper, ProperWorker, AllProper, AllProperWorkers;
      var t := fibers[at];
      TaskAt(at);
      SpareHere(i);
      TaskKnown(i, at);
      RestingBusy(i, workers[i].(phase := Picked(t)));
      Move(i, workers[i].(phase := Picked(t)), t.fiber);
      label M:
      fibers := Erased(fibers, at);
      active := active + 1;
      Shrunk@M(at);
      Taken(i, t);
    }

    /** What the scan's choice leaves to prove. */
    twostate lemma Taken(new i: nat, new t: Task)
      requires old(Counters() && AllSafe() && Spares()) && Shape() && all == old(all)
      requires forall g :: g in all ==> g.state == old(g.state)
      requires i < |old(workers)| && old(workers)[i].phase.Scanning? && (t.fiber != null ==> t.fiber in all)
      requires workers == old(workers)[i := old(workers)[i].(phase := Picked(t))]
      requires Proper(t) && old(SpareOk(workers[i]))
      requires AllProper(old(fibers)) && AllProperWorkers(old(workers)) && AllProper(fibers)
               && AllProperWorkers(workers)
      requires QueueTickets(old(fibers)) == QueueTickets(fibers) + multiset{TicketOf(t)}
      requires Held(workers) == Held(old(workers)) - multiset{} + multiset{TicketOf(t)}
      requires Idlers(workers) == Idlers(old(workers)) && idle == old(idle) && active == old(active) + 1
      requires issued == old(issued) && consumed == old(consumed)
      requires forall g: Fiber :: g in all ==> Pending(g) + (if t.fiber == g then 1 else 0) == old(Pending(g))
      requires forall g: Fiber, role: Role :: g in all && g != t.fiber ==> In(g, role) == old(In(g, role))
      requires t.fiber != null ==>
                 var f := t.fiber;
                 && f.state != EXEC && old(Pending(f)) == 1
                 && old(In(f, Picking)) == 0 && old(In(f, Executing)) == 0
                 && (forall j :: 0 <= j < |workers| ==> workers[j].spare != f)
                 && Changed(old(workers)[i], workers[i], f, old(In(f, Picking)), In(f, Picking),
                            old(In(f, Executing)), In(f, Executing), old(In(f, Owning)), In(f, Owning))
      ensures Counters() && AllSafe() && Spares()
    {
      hide Shape, Held, QueueTickets, Idlers, AllSafe, Spares, Counters, Safe, SpareOk, Changed, Pending, In;
      hide TicketOf, AllProper, AllProperWorkers;
      CountersMeant();
      PickedHere(i, t.fiber);
      StepKeeps(i, t.fiber);
      OneMoreHeld(Held(old(workers)), QueueTickets(old(fibers)), TicketOf(t));
    }

    lemma TaskKnown(i: nat, at: nat)
      requires Shape() && i < |workers| && at < |fibers| && workers[i].phase.Scanning?
      ensures Proper(fibers[at]) && (fibers[at].fiber != null ==> fibers[at].fiber in all)
      ensures var w := workers[i].(phase := Picked(fibers[at]));
              && ProperWorker(w) && Known(w) && Only(workers[i], w, fibers[at].fiber)
              && InHand(workers[i]) == multiset{} && InHand(w) == multiset{TicketOf(fibers[at])}
    {
    }

    /** The queue loses one task, and only its fiber one wake-up. */
    twostate lemma Shrunk(new at: nat)
      requires old(Shape()) && at < |old(fibers)| && fibers == Erased(old(fibers), at)
      requires workers == old(workers) && all == old(all) && parked == old(parked)
      ensures Shape() && AllProper(fibers) && AllProper(old(fibers))
      ensures QueueTickets(old(fibers)) == QueueTickets(fibers) + multiset{TicketOf(old(fibers)[at])}
      ensures forall g: Fiber :: g in all ==>
                Pending(g) + (if old(fibers)[at].fiber == g then 1 else 0) == old(Pending(g))
    {
      hide Queued, Erased, QueueTickets, TicketOf;
      ErasedProper(old(fibers), at);
      QueueTicketsErase(old(fibers), at);
      ErasedFrom(old(fibers), at, all);
      forall g: Fiber | g in all
        ensures Pending(g) + (if old(fibers)[at].fiber == g then 1 else 0) == old(Pending(g))
      {
        QueuedErase(old(fibers), at, g);
      }
    }

    twostate lemma PickedHere(new i: nat, f: Fiber?)
      requires i < |old(workers)| == |workers| && old(workers)[i].phase.Scanning? && old(SpareOk(workers[i]))
      requires workers[i].phase.Picked? && workers[i].phase.task.fiber == f && workers[i].spare == old(workers)[i].spare
      requires all == old(all) && forall g :: g in all ==> g.state == old(g.state)
      requires forall g :: g in all && g != f ==> Pending(g) == old(Pending(g))
      requires forall g, role :: g in all && g != f ==> In(g, role) == old(In(g, role))
      requires f != null ==>
                 && f.state != EXEC && f != workers[i].spare
                 && old(Pending(f)) == 1 && Pending(f) == 0 && old(In(f, Picking)) == 0 && old(In(f, Executing)) == 0
                 && Changed(old(workers)[i], workers[i], f, old(In(f, Picking)), In(f, Picking),
                            old(In(f, Executing)), In(f, Executing), old(In(f, Owning)), In(f, Owning))
      ensures (f != null ==> Safe(f)) && SpareOk(workers[i])
    {
      hide Queued, Count;
    }

    lemma OneMoreHeld(held: multiset<Ticket>, queue: multiset<Ticket>, ticket: Ticket)
      requires AllProper(fibers) && AllProperWorkers(workers)
      requires Held(workers) == held + multiset{ticket} && queue == QueueTickets(fibers) + multiset{ticket}
      requires active == |held| + 1 && idle == Idlers(workers) && issued == queue + held + consumed
      ensures Counters()
    {
      hide AllProper, AllProperWorkers, Held, QueueTickets, Idlers;
    }

    /** A step of worker i that concerns no fiber but f keeps the others safe, and every spare but f. */
    twostate lemma Others(new i: nat, new f: Fiber?)
      requires old(AllSafe() && Spares()) && old(all) <= all
      requires i < |workers| == |old(workers)| && workers == old(workers)[i := workers[i]]
      requires forall g :: g in old(all) && g != f ==> g.state == old(g.state) && Pending(g) == old(Pending(g))
      requires forall g, role :: g in old(all) && g != f ==> In(g, role) == old(In(g, role))
      ensures forall g :: g in old(all) && g != f ==> Safe(g)
      ensures forall j :: 0 <= j < |workers| && j != i && (workers[j].spare == null || workers[j].spare != f) ==>
                SpareOk(workers[j])
    {
      hide Pending, In;
      forall g | g in old(all) && g != f
        ensures Safe(g)
      {
        assert old(Safe(g));
      }
      forall j | 0 <= j < |workers| && j != i && (workers[j].spare == null || workers[j].spare != f)
        ensures SpareOk(workers[j])
      {
        assert old(SpareOk(workers[j]));
      }
    }

    /** A fiber in a worker's hand is nobody else's spare, and nobody's unless it runs the worker's function. */
    lemma InHandNotSpare(i: nat, f: Fiber)
      requires Shape() && AllSafe() && Spares() && i < |workers| && f in all && HandOf(workers[i]) == f
      ensures forall j :: 0 <= j < |workers| && j != i ==> workers[j].spare != f
      ensures if workers[i].phase.Picked?
              then workers[i].spare != f && f.state != EXEC && Pending(f) == 0 && In(f, Picking) == 1
                && In(f, Executing) == 0
              else f.state == EXEC && Pending(f) <= 1 && In(f, Picking) == 0 && In(f, Executing) == 1
    {
      assert Safe(f);
      CountAtLeast(workers, i, f, Picking);
      CountAtLeast(workers, i, f, Executing);
      forall j | 0 <= j < |workers| && workers[j].spare == f
        ensures j == i && !workers[i].phase.Picked?
      {
        assert SpareOk(workers[j]);
        CountAtLeast(workers, j, f, Executing);
        if j < i {
          CountTwo(workers, j, i, f, Executing);
        } else if i < j {
          CountTwo(workers, i, j, f, Executing);
        }
      }
    }

    /** What is left to prove after a step of worker i that concerns only f. */
    twostate lemma StepKeeps(new i: nat, new f: Fiber?)
      requires old(AllSafe() && Spares()) && old(all) <= all && forall g :: g in all ==> g in old(all) || g == f
      requires i < |workers| == |old(workers)| && workers == old(workers)[i := workers[i]]
      requires forall g :: g in old(all) && g != f ==> g.state == old(g.state) && Pending(g) == old(Pending(g))
      requires forall g, role :: g in old(all) && g != f ==> In(g, role) == old(In(g, role))
      requires f != null && f in all ==> Safe(f)
      requires SpareOk(workers[i])
      requires forall j :: 0 <= j < |workers| && j != i && workers[j].spare != null ==> workers[j].spare != f
      ensures AllSafe() && Spares()
    {
      hide Pending, In, Safe, SpareOk;
      Others(i, f);
    }

    /** The fiber branch: ft.fiber->swapIn(). Its assertion that the fiber is not executing holds. */
    method StartFiber(i: nat)
      requires Valid() && i < |workers| && workers[i].phase.Picked?
      requires workers[i].phase.task.fiber != null && !workers[i].phase.task.fiber.Ended()
      modifies this`workers, workers[i].phase.task.fiber`state
      ensures Valid()
      ensures var f := old(workers)[i].phase.task.fiber;
              f.state == EXEC && MayWake(f)
                && workers == old(workers)[i := old(workers)[i].(phase := Running(f, OfFiber(f)))]
    {
      hide Held, QueueTickets, Idlers, AllSafe, Spares, Counters, Shape, Pending, In;
      hide Safe, SpareOk, Changed, MayWake, Known, Only, Resting;
      RestingHere(i);
      var w := workers[i];
      SpareHere(i);
      var f := w.phase.task.fiber;
      InHandNotSpare(i, f);
      f.SwapIn();
      StartKnown(i);
      RestingMoves(i, w.(phase := Running(f, OfFiber(f))));
      Move(i, w.(phase := Running(f, OfFiber(f))), f);
      SameAgain(Held(old(workers)), multiset{OfFiber(f)});
      Started(i, f);
      StepKeeps(i, f);
      SameCounters();
    }

    lemma StartKnown(i: nat)
      requires Shape() && i < |workers| && workers[i].phase.Picked? && workers[i].phase.task.fiber != null
      ensures var f := workers[i].phase.task.fiber;
              var w := workers[i].(phase := Running(f, OfFiber(f)));
              f in all && ProperWorker(w) && Known(w) && Only(workers[i], w, f)
              && InHand(workers[i]) == InHand(w) == multiset{OfFiber(f)}
    {
      assert Known(workers[i]);
    }

    lemma SameAgain<T>(a: multiset<T>, x: multiset<T>)
      ensures x <= a ==> a - x + x == a
    {
    }

    /** The fiber of a worker that starts its segment. */
    twostate lemma Started(new i: nat, f: Fiber)
      requires i < |old(workers)| == |workers| && old(workers)[i].phase.Picked? && old(workers)[i].phase.task.fiber == f
      requires workers[i] == old(workers)[i].(phase := Running(f, OfFiber(f))) && f.state == EXEC
      requires old(SpareOk(workers[i])) && workers[i].spare != f && old(Pending(f)) == 0 && old(In(f, Picking)) == 1
               && old(In(f, Executing)) == 0
      requires fibers == old(fibers) && parked == old(parked) && all == old(all) && f in all
      requires forall g :: g in all && g != f ==> g.state == old(g.state)
      requires forall g, role :: g in all && g != f ==> In(g, role) == old(In(g, role))
      requires Changed(old(workers)[i], workers[i], f, old(In(f, Picking)), In(f, Picking),
                       old(In(f, Executing)), In(f, Executing), old(In(f, Owning)), In(f, Owning))
      ensures Safe(f) && SpareOk(workers[i]) && MayWake(f)
    {
      hide Queued, Count;
    }

    lemma KnownAt(i: nat)
      requires Valid() && i < |workers|
      ensures Known(workers[i]) && ProperWorker(workers[i])
    {
      hide Counters, AllSafe, Spares, Resting;
    }

    lemma SpareHere(i: nat)
      requires Shape() && Spares() && i < |workers|
      ensures SpareOk(workers[i]) && Known(workers[i]) && ProperWorker(workers[i])
    {
    }

    /** The callback branch: the spare fiber is reset for the function, or a new one is made, and run. */
    method StartCallback(i: nat) returns (f: Fiber)
      requires Valid() && i < |workers| && workers[i].phase.Picked? && workers[i].phase.task.cb.Some?
      modifies this`workers, this`all, workers[i].spare
      ensures Valid() && old(all) <= all && f in all
      ensures f.state == EXEC && f.cb == old(workers)[i].phase.task.cb
      ensures if old(workers)[i].spare != null then f == old(workers)[i].spare else fresh(f)
      ensures workers == old(workers)[i := old(workers)[i].(phase := Running(f, OfCallback(f.cb.value)), spare := f)]
    {
      hide Queued, Count, Held, QueueTickets, Idlers, AllSafe, Spares, Counters, Unused, Shape, Resting;
      f := PrepareSpare(i);
      RunSpare(i, f);
    }

    /** cb_fiber->reset(ft.cb) or cb_fiber.reset(new Fiber(ft.cb)). */
    method PrepareSpare(i: nat) returns (f: Fiber)
      requires Valid() && i < |workers| && workers[i].phase.Picked? && workers[i].phase.task.cb.Some?
      modifies this`all, workers[i].spare
      ensures Valid() && old(all) <= all && f in all && f.cb == workers[i].phase.task.cb
      ensures Unused(f) && In(f, Executing) == 0 && forall j :: 0 <= j < |workers| && j != i ==> workers[j].spare != f
      ensures workers[i].spare == f || (workers[i].spare == null && In(f, Owning) == 0)
      ensures if workers[i].spare != null then f == workers[i].spare else fresh(f)
    {
      hide Queued, Count, Held, QueueTickets, Idlers, AllSafe, Spares, Counters, Resting;
      RestingHere(i);
      var cb := workers[i].phase.task.cb;
      if workers[i].spare != null {
        f := workers[i].spare;
        SpareHere(i);
        SpareUnused(i);
        SpareAlone(i, f);
        f.Reset(cb);
      } else {
        f := new Fiber(cb);
        Adopt(f);
        SpareAlone(i, f);
      }
    }

    /** cb_fiber->swapIn(). */
    method RunSpare(i: nat, f: Fiber)
      requires Valid() && i < |workers| && workers[i].phase.Picked? && workers[i].phase.task.cb.Some?
      requires f in all && f.cb == workers[i].phase.task.cb
      requires Unused(f) && In(f, Executing) == 0 && forall j :: 0 <= j < |workers| && j != i ==> workers[j].spare != f
      requires workers[i].spare == f || (workers[i].spare == null && In(f, Owning) == 0)
      modifies this`workers, f`state
      ensures Valid() && f.state == EXEC
      ensures workers == old(workers)[i := old(workers)[i].(phase := Running(f, OfCallback(f.cb.value)), spare := f)]
    {
      hide Held, QueueTickets, Idlers, AllSafe, Spares, Counters, Shape, Safe, SpareOk, Changed, Resting;
      hide Pending, In, Known, Only;
      var w := workers[i];
      SpareHere(i);
      RestingHere(i);
      SpareKnown(i, f);
      f.SwapIn();
      RestingMoves(i, w.(phase := Running(f, OfCallback(f.cb.value)), spare := f));
      Move(i, w.(phase := Running(f, OfCallback(f.cb.value)), spare := f), f);
      SameAgain(Held(old(workers)), multiset{OfCallback(f.cb.value)});
      SpareRuns(i, f);
      StepKeeps(i, f);
      SameCounters();
    }

    lemma SpareKnown(i: nat, f: Fiber)
      requires Shape() && i < |workers| && workers[i].phase.Picked? && workers[i].phase.task.cb.Some?
      requires f in all && f.cb == workers[i].phase.task.cb && (workers[i].spare == f || workers[i].spare == null)
      ensures var w := workers[i].(phase := Running(f, OfCallback(f.cb.value)), spare := f);
              ProperWorker(w) && Known(w) && Only(workers[i], w, f) && workers[i].phase.task.fiber == null
              && InHand(workers[i]) == InHand(w) == multiset{OfCallback(f.cb.value)}
    {
      assert Known(workers[i]) && ProperWorker(workers[i]);
    }

    twostate lemma SpareRuns(new i: nat, f: Fiber)
      requires i < |old(workers)| == |workers| && old(workers)[i].phase.Picked?
               && old(workers)[i].phase.task.fiber == null
      requires workers[i].phase.Running? && workers[i].phase.fiber == workers[i].spare == f
               && workers[i].phase.ticket.OfCallback?
      requires old(Unused(f)) && old(In(f, Executing)) == 0 && f.state == EXEC && f in all
      requires old(SpareOk(workers[i]))
               && (old(workers)[i].spare == f || (old(workers)[i].spare == null && old(In(f, Owning)) == 0))
      requires fibers == old(fibers) && parked == old(parked)
      requires Changed(old(workers)[i], workers[i], f, old(In(f, Picking)), In(f, Picking),
                       old(In(f, Executing)), In(f, Executing), old(In(f, Owning)), In(f, Owning))
      ensures Safe(f) && SpareOk(workers[i])
    {
      hide Queued, Count;
    }

    /** The counters when only a worker's phase has changed, and not what it holds. */
    twostate lemma SameCounters()
      requires old(Counters()) && fibers == old(fibers) && AllProperWorkers(workers)
      requires Held(workers) == Held(old(workers)) && Idlers(workers) == Idlers(old(workers))
      requires active == old(active) && idle == old(idle) && issued == old(issued) && consumed == old(consumed)
      ensures Counters()
    {
    }

    /** A worker between segments has an unused spare, or none. */
    lemma SpareUnused(i: nat)
      requires Valid() && i < |workers| && workers[i].spare != null && !workers[i].phase.Running?
      ensures Unused(workers[i].spare) && In(workers[i].spare, Executing) == 0
    {
      assert SpareOk(workers[i]);
      assert Safe(workers[i].spare);
    }

    lemma SpareAlone(i: nat, f: Fiber)
      requires Shape() && Spares() && i < |workers| && f in all
      requires workers[i].spare == f || In(f, Owning) == 0
      ensures forall j :: 0 <= j < |workers| && j != i ==> workers[j].spare != f
    {
      forall j | 0 <= j < |workers| && j != i && workers[j].spare == f
        ensures false
      {
        CountAtLeast(workers, j, f, Owning);
        assert SpareOk(workers[j]);
        if j < i { CountTwo(workers, j, i, f, Owning); } else { CountTwo(workers, i, j, f, Owning); }
      }
    }

    /** The last branch: a ticket for a fiber that has ended is dropped. */
    method Discard(i: nat)
      requires Valid() && i < |workers| && workers[i].phase.Picked?
      requires workers[i].phase.task.fiber != null && workers[i].phase.task.fiber.Ended()
      modifies this`workers, this`active, this`consumed
      ensures Valid() && active == old(active) - 1
      ensures workers == old(workers)[i := old(workers)[i].(phase := Scanning)]
      ensures consumed == old(consumed) + multiset{OfFiber(old(workers)[i].phase.task.fiber)}
    {
      hide Queued, Count, Held, QueueTickets, Idlers, AllSafe, Spares, Counters, Shape, Resting;
      var w := workers[i];
      SpareHere(i);
      var f := w.phase.task.fiber;
      InHandNotSpare(i, f);
      CountersMean();
      RestingBusy(i, w.(phase := Scanning));
      ghost var held := Held(workers);
      Move(i, w.(phase := Scanning), f);
      StepKeeps(i, f);
      Retire(held, OfFiber(f));
    }

    lemma CountersMean()
      requires Counters()
      ensures AllProper(fibers) && AllProperWorkers(workers) && active == |Held(workers)| && idle == Idlers(workers)
      ensures issued == QueueTickets(fibers) + Held(workers) + consumed
    {
    }

    twostate lemma CountersMeant()
      requires old(Counters())
      ensures AllProper(old(fibers)) && AllProperWorkers(old(workers))
      ensures old(active) == |Held(old(workers))| && old(idle) == Idlers(old(workers))
      ensures old(issued) == QueueTickets(old(fibers)) + Held(old(workers)) + old(consumed)
    {
    }

    lemma NotOwned(f: Fiber)
      ensures (forall j :: 0 <= j < |workers| ==> workers[j].spare != f) ==> In(f, Owning) == 0
    {
      if forall j :: 0 <= j < |workers| ==> workers[j].spare != f {
        CountNone(workers, f, Owning);
      }
    }

    /** --m_activeThreadCount, and the ticket is used up. */
    method Retire(ghost held: multiset<Ticket>, ghost ticket: Ticket)
      requires AllProperWorkers(workers) && AllProper(fibers)
      requires ticket in held && Held(workers) == held - multiset{ticket}
      requires idle == Idlers(workers) && active == |held|
      requires issued == QueueTickets(fibers) + held + consumed
      modifies this`active, this`consumed
      ensures Counters() && active == old(active) - 1 && consumed == old(consumed) + multiset{ticket}
    {
      hide AllProper, AllProperWorkers, Held, QueueTickets, Idlers;
      assert held == Held(workers) + multiset{ticket};
      active := active - 1;
      consumed := consumed + multiset{ticket};
    }

    /** The end of a segment, as one step: the fiber gives the worker back, the count goes down, and the
        fiber is queued again, put on hold, or (for a function) kept as the spare.
        The discipline on programs: a segment that ends ready, finished or by an exception has issued no
        wake-up of its own fiber; one that ends on hold has issued at most one, as Valid says. */
    method EndSegment(i: nat, how: Leave)
      requires Valid() && i < |workers| && workers[i].phase.Running?
      requires how.Silent() ==> Pending(workers[i].phase.fiber) == 0
      modifies this`workers, this`active, this`consumed, this`fibers, this`issued, workers[i].phase.fiber
      ensures Valid() && active == old(active) - 1
      ensures var w := old(workers)[i];
              var f := w.phase.fiber;
              && workers == old(workers)[i := Worker(w.thread, Scanning, SpareAfter(w, how))]
              && consumed == old(consumed) + multiset{w.phase.ticket}
              && fibers == old(fibers) + (if how == YieldReady then [Task(f, None, -1)] else [])
              && f.state == StateAfter(how, w.spare == f)
      ensures var w := old(workers)[i];
              && workers[i].spare == (if w.phase.ticket.OfCallback? && how in {YieldReady, YieldHold, Bare} then null
                                      else w.spare)
              && (w.phase.ticket.OfCallback? ==> w.spare == w.phase.fiber)
              && match how
                 case YieldReady => w.phase.fiber.state == READY
                 case Finish => w.phase.fiber.state == if w.phase.ticket.OfCallback? then INIT else TERM
                 case Throw => w.phase.fiber.state == if w.phase.ticket.OfCallback? then INIT else EXCEPT
                 case _ => w.phase.fiber.state == HOLD
      ensures var w := old(workers)[i];
              w.phase.fiber.cb == if how == Finish || (how == Throw && w.phase.ticket.OfCallback?) then None
                                  else old(workers[i].phase.fiber.cb)
    {
      hide Queued, Count, Held, QueueTickets, Idlers, AllSafe, Spares, Counters, Shape, Resting;
      SpareHere(i);
      var f := workers[i].phase.fiber;
      Vacate(i, how);
      if f.state == READY {
        var need := Schedule(f, -1);
      }
    }

    /** Everything but the requeueing. */
    method Vacate(i: nat, how: Leave)
      requires Valid() && i < |workers| && workers[i].phase.Running?
      requires how.Silent() ==> Pending(workers[i].phase.fiber) == 0
      modifies this`workers, this`active, this`consumed, workers[i].phase.fiber
      ensures Valid() && active == old(active) - 1
      ensures var w := old(workers)[i];
              var f := w.phase.fiber;
              && workers == old(workers)[i := Worker(w.thread, Scanning, SpareAfter(w, how))]
              && consumed == old(consumed) + multiset{w.phase.ticket}
              && f.state == StateAfter(how, w.spare == f)
              && f.cb == (if how == Finish || (how == Throw && w.spare == f) then None else old(f.cb))
              && f in all && (how == YieldReady ==> MayWake(f))
    {
      hide Held, QueueTickets, Idlers, AllSafe, Spares, Counters, Shape, Safe, SpareOk, Changed, Unused, Pending, In;
      hide Known, Only, SpareAfter, StateAfter, MayWake, Resting;
      RestingHere(i);
      var w := workers[i];
      SpareHere(i);
      var f := w.phase.fiber;
      InHandNotSpare(i, f);
      CountersMean();
      ghost var held := Held(workers);
      VacateKnown(i, how);
      Settle(f, how, w.spare == f);
      RestingMoves(i, Worker(w.thread, Scanning, SpareAfter(w, how)));
      Move(i, Worker(w.thread, Scanning, SpareAfter(w, how)), f);
      Vacated(i, f, how);
      StepKeeps(i, f);
      Retire(held, w.phase.ticket);
    }

    lemma VacateKnown(i: nat, how: Leave)
      requires Shape() && i < |workers| && workers[i].phase.Running?
      ensures var w := workers[i];
              var v := Worker(w.thread, Scanning, SpareAfter(w, how));
              w.phase.fiber in all && ProperWorker(v) && Known(v) && Only(w, v, w.phase.fiber)
              && InHand(w) == multiset{w.phase.ticket} && InHand(v) == multiset{}
    {
      assert Known(workers[i]);
    }

    /** The fiber and the spare of a worker that has finished a segment. */
    twostate lemma Vacated(new i: nat, f: Fiber, new how: Leave)
      requires i < |old(workers)| == |workers| && old(workers)[i].phase.Running? && old(workers)[i].phase.fiber == f
      requires var w := old(workers)[i];
               workers[i] == Worker(w.thread, Scanning, SpareAfter(w, how)) && f.state == StateAfter(how, w.spare == f)
      requires old(SpareOk(workers[i])) && old(Pending(f)) <= 1 && old(In(f, Picking)) == 0
               && old(In(f, Executing)) == 1
      requires how.Silent() ==> old(Pending(f)) == 0
      requires fibers == old(fibers) && parked == old(parked) && all == old(all) && f in all
      requires forall g :: g in all && g != f ==> g.state == old(g.state)
      requires forall g, role :: g in all && g != f ==> In(g, role) == old(In(g, role))
      requires Changed(old(workers)[i], workers[i], f, old(In(f, Picking)), In(f, Picking),
                       old(In(f, Executing)), In(f, Executing), old(In(f, Owning)), In(f, Owning))
      requires forall j :: 0 <= j < |workers| && j != i ==> workers[j].spare != f
      ensures Safe(f) && SpareOk(workers[i])
      ensures how == YieldReady ==> MayWake(f)
    {
      hide Queued, Count;
      NotOwned(f);
    }

    /** The state that run leaves the fiber in. */
    static method Settle(f: Fiber, how: Leave, spare: bool)
      requires f.state == EXEC
      modifies f
      ensures f.state == StateAfter(how, spare)
      ensures f.cb == if how == Finish || (how == Throw && spare) then None else old(f.cb)
    {
      f.SwapOut(how);
      if f.state == READY {
      } else if f.Ended() {
        if spare {
          f.Reset(None);
        }
      } else {
        f.state := HOLD;
      }
    }

    /** No task: the worker leaves the loop if its idle fiber has ended, and swaps it in otherwise; the
        assertion of swapIn holds. */
    method EnterIdle(i: nat)
      requires Valid() && i < |workers| && workers[i].phase.Scanning?
      modifies this`workers, this`idle, idlers
      ensures Valid() && forall j :: 0 <= j < |idlers| && j != i ==> unchanged(idlers[j])
      ensures var w := old(workers)[i];
              if old(idlers[i].state) == TERM
              then workers == old(workers)[i := w.(phase := Exited)] && idle == old(idle) && idlers[i].state == TERM
              else workers == old(workers)[i := w.(phase := Idling)] && idle == old(idle) + 1 && idlers[i].state == EXEC
    {
      hide Shape, Counters, AllSafe, Spares, Resting, Held, QueueTickets, Idlers, AllProper, AllProperWorkers;
      CountersMean();
      RestingHere(i);
      if idlers[i].state == TERM {
        RestingMoves(i, workers[i].(phase := Exited));
        Shift(i, workers[i].(phase := Exited));
        return;
      }
      idle := idle + 1;
      idlers[i].SwapIn();
      RestingMoves(i, workers[i].(phase := Idling));
      Shift(i, workers[i].(phase := Idling));
    }

    /** The idle fiber returns to the loop: by its end if the scheduler may stop, else by a bare swapOut,
        after which the loop puts it on hold. */
    method LeaveIdle(i: nat, stop: bool)
      requires Valid() && i < |workers| && workers[i].phase.Idling?
      modifies this`workers, this`idle, idlers
      ensures Valid() && idle == old(idle) - 1
      ensures workers == old(workers)[i := old(workers)[i].(phase := Scanning)]
      ensures idlers[i].state == if stop then TERM else HOLD
      ensures forall j :: 0 <= j < |idlers| && j != i ==> unchanged(idlers[j])
    {
      hide Shape, Counters, AllSafe, Spares, Resting, Held, QueueTickets, Idlers, AllProper, AllProperWorkers;
      CountersMean();
      RestingHere(i);
      IdlerHere(i);
      Settle(idlers[i], if stop then Finish else Bare, false);
      idle := idle - 1;
      RestingMoves(i, workers[i].(phase := Scanning));
      Shift(i, workers[i].(phase := Scanning));
    }

    lemma IdlerHere(i: nat)
      requires Counters() && i < |workers| && workers[i].phase.Idling?
      ensures idle >= 1
    {
      IdlersUpdate(workers, i, workers[i].(phase := Scanning));
    }

    /** A step of a worker with empty hands, before and after. */
    method Shift(i: nat, v: Worker)
      requires Shape() && AllSafe() && Spares() && i < |workers|
      requires HandOf(workers[i]) == null && !workers[i].phase.Picked? && !workers[i].phase.Running?
      requires v.phase in {Scanning, Idling, Exited} && v.spare == workers[i].spare
      requires AllProper(fibers) && AllProperWorkers(workers) && active == |Held(workers)|
      requires idle + (if workers[i].phase.Idling? then 1 else 0) == Idlers(workers) + if v.phase.Idling? then 1 else 0
      requires issued == QueueTickets(fibers) + Held(workers) + consumed && Resting(workers[i := v])
      modifies this`workers
      ensures Valid() && workers == old(workers)[i := v]
    {
      hide Queued, Count, Held, QueueTickets, Idlers, AllSafe, Spares, Counters, Shape, Resting;
      SpareHere(i);
      Move(i, v, null);
      StepKeeps(i, null);
      assert Counters() by { EmptyHanded(old(Held(workers))); }
    }

    lemma EmptyHanded(held: multiset<Ticket>)
      requires AllProper(fibers) && AllProperWorkers(workers) && Held(workers) == held
      requires active == |held| && idle == Idlers(workers) && issued == QueueTickets(fibers) + held + consumed
      ensures Counters()
    {
    }

    /** stop(): the flags. */
    method RequestStop()
      requires Valid()
      modifies this`autoStop, this`stopping
      ensures Valid() && autoStop && stopping
    {
      hide Shape, Counters, AllSafe, Spares, Resting;
      autoStop, stopping := true, true;
    }

    /** start(): the flag; threads are the workers. */
    method Start()
      requires Valid()
      modifies this`stopping
      ensures Valid() && !stopping
    {
      hide Shape, Counters, AllSafe, Spares, Resting;
      stopping := false;
    }
  }

  /** A worker whose function has ended, normally or by an exception, runs its next one on the same fiber. */
  method SpareUsedAgain(s: Scheduler, i: nat, how: Leave, cb: Callback) returns (f: Fiber)
    requires s.Valid() && i < |s.workers| && s.workers[i].phase.Running? && s.workers[i].phase.ticket.OfCallback?
    requires how.Final() && s.Pending(s.workers[i].phase.fiber) == 0 && s.fibers == []
    modifies s, s.workers[i].phase.fiber
    ensures s.Valid() && f == old(s.workers[i].phase.fiber) && f.state == EXEC && f.cb == Some(cb)
  {
    hide Scheduler.Valid, Scheduler.Pending;
    s.EndSegment(i, how);
    var need := s.ScheduleCallback(Some(cb), -1);
    assert s.Runnable(s.fibers[0], s.workers[i].thread);
    var tickle, at := s.Dequeue(i);
    f := s.StartCallback(i);
  }
}
