/** The diagnostics executor (src/Diagnostics/Execution/DiagnosticsExecutor.cs): a semaphore of
    execution slots, a bounded waiting counter and the metrics bumped along the exits.

    Any number of requests interleave. One event is one atomic access of one request: a wait on
    the semaphore, one `Interlocked` operation, one metric update, one release. A request's
    cancellation token may fire between any two events. */
module Executor {
  import opened Options
  import opened Counting

  type Id = nat

  datatype Settings = Settings(maxConcurrent: nat, maxQueued: nat)

  datatype Code = Busy | Timeout | Cancelled | Internal | ValidationFailed | DestinationBlocked | OtherProblem(name: string)

  /** Labels of the metric of rejections. */
  datatype Label = QueueFull | QueueTimeout | Refused(code: Code)

  /** What the work delegate does: it returns, is cancelled, or throws. */
  datatype Work = Returns | ThrowsCancelled | ThrowsProblem(code: Code) | ThrowsOther

  datatype Outcome = Succeeded | Failed(code: Code) | CancelledEarly

  /** Where a request stands, named after the access it performs next. */
  datatype Phase =
    | Outside                      // not yet called
    | Arriving                     // about to try for a slot without waiting
    | Overflowing                  // about to increment the waiting counter
    | Rejecting                    // over the queue limit, about to decrement
    | RejectCounting               // about to count the rejection
    | Queued                       // waiting on the semaphore
    | ExpiryCounting               // waited too long, about to count that
    | LeavingQueue(next: Exit)     // in the `finally` of the wait, about to decrement
    | Acquired                     // holds a slot, not yet counted as active
    | Running                      // the work delegate runs
    | FailCounting(code: Code)     // a catch block is about to count the failure
    | Finishing(outcome: Outcome)  // in the outer `finally`, about to leave the gauge
    | Releasing(outcome: Outcome)  // about to release the slot
    | Done(outcome: Outcome)

  /** How a wait ended. */
  datatype Exit = WithSlot | Expired | Abandoned

  datatype Request = Request(phase: Phase, cancelled: bool)

  datatype Counters = Counters(
    free: int,                  // the semaphore's current count
    waiting: int,               // the waiting counter
    started: nat,               // the metric of all requests
    active: int,                // the gauge of active requests
    failed: multiset<Code>,     // the metric of failed requests, by code
    rejected: multiset<Label>)  // the metric of rejections, by label

  datatype State = State(counters: Counters, requests: map<Id, Request>)

  datatype Action =
    | Arrive
    | Cancel                // the caller's token fires
    | Advance               // the next access, where only one can happen
    | Grant                 // the semaphore hands a slot to a waiter
    | Expire                // the queue wait runs out
    | Abandon               // a cancelled waiter leaves the semaphore
    | Finish(work: Work)    // the work delegate ends

  datatype Event = Event(id: Id, action: Action)

  function Init(c: Settings): State {
    State(Counters(c.maxConcurrent, 0, 0, 0, multiset{}, multiset{}), map[])
  }

  predicate Possible(k: Counters, q: Request, a: Action) {
    match a
    case Arrive => q.phase.Outside?
    case Cancel => !q.phase.Outside? && !q.cancelled
    case Advance => !q.phase.Outside? && !q.phase.Queued? && !q.phase.Running? && !q.phase.Done?
    case Grant => q.phase.Queued? && k.free > 0
    case Expire => q.phase.Queued?
    case Abandon => q.phase.Queued? && q.cancelled
    case Finish(_) => q.phase.Running?
  }

  /** The catch blocks: the first `when` filter tells a deadline from the caller's own cancellation. */
  function AfterWork(w: Work, cancelled: bool): Phase {
    match w
    case Returns => Finishing(Succeeded)
    case ThrowsCancelled => FailCounting(if cancelled then Cancelled else Timeout)
    case ThrowsProblem(code) => FailCounting(code)
    case ThrowsOther => FailCounting(Internal)
  }

  function AfterQueue(x: Exit): Phase {
    match x
    case WithSlot => Acquired
    case Expired => Done(Failed(Busy))
    case Abandoned => Done(CancelledEarly)
  }

  function RefusalLabels(c: Code): multiset<Label> {
    if c.ValidationFailed? || c.DestinationBlocked? then multiset{Refused(c)} else multiset{}
  }

  function NextPhase(c: Settings, k: Counters, q: Request): Phase
    requires Possible(k, q, Advance)
  {
    match q.phase
    case Arriving => if q.cancelled then Done(CancelledEarly) else if k.free > 0 then Acquired else Overflowing
    case Overflowing => if k.waiting + 1 > c.maxQueued then Rejecting else Queued
    case Rejecting => RejectCounting
    case RejectCounting => Done(Failed(Busy))
    case ExpiryCounting => LeavingQueue(Expired)
    case LeavingQueue(x) => AfterQueue(x)
    case Acquired => Running
    case FailCounting(code) => Finishing(Failed(code))
    case Finishing(o) => Releasing(o)
    case Releasing(o) => Done(o)
  }

  function NextCounters(k: Counters, q: Request): Counters
    requires Possible(k, q, Advance)
  {
    match q.phase
    case Arriving => if !q.cancelled && k.free > 0 then k.(free := k.free - 1) else k
    case Overflowing => k.(waiting := k.waiting + 1)
    case Rejecting => k.(waiting := k.waiting - 1)
    case RejectCounting => k.(failed := k.failed + multiset{Busy}, rejected := k.rejected + multiset{QueueFull})
    case ExpiryCounting => k.(failed := k.failed + multiset{Busy}, rejected := k.rejected + multiset{QueueTimeout})
    case LeavingQueue(_) => k.(waiting := k.waiting - 1)
    case Acquired => k.(active := k.active + 1)
    case FailCounting(code) => k.(failed := k.failed + multiset{code}, rejected := k.rejected + RefusalLabels(code))
    case Finishing(_) => k.(active := k.active - 1)
    case Releasing(_) => k.(free := k.free + 1)
  }

  function RequestAfter(c: Settings, k: Counters, q: Request, a: Action): Request
    requires Possible(k, q, a)
  {
    match a
    case Arrive => Request(Arriving, false)
    case Cancel => q.(cancelled := true)
    case Advance => q.(phase := NextPhase(c, k, q))
    case Grant => q.(phase := LeavingQueue(WithSlot))
    case Expire => q.(phase := ExpiryCounting)
    case Abandon => q.(phase := LeavingQueue(Abandoned))
    case Finish(w) => q.(phase := AfterWork(w, q.cancelled))
  }

  function CountersAfter(k: Counters, q: Request, a: Action): Counters
    requires Possible(k, q, a)
  {
    match a
    case Arrive => k.(started := k.started + 1)
    case Grant => k.(free := k.free - 1)
    case Advance => NextCounters(k, q)
    case _ => k
  }

  function Lookup(m: map<Id, Request>, id: Id): Request {
    if id in m then m[id] else Request(Outside, false)
  }

  predicate Enabled(s: State, e: Event) {
    Possible(s.counters, Lookup(s.requests, e.id), e.action)
  }

  function Next(c: Settings, s: State, e: Event): State
    requires Enabled(s, e)
  {
    var q := Lookup(s.requests, e.id);
    State(CountersAfter(s.counters, q, e.action), s.requests[e.id := RequestAfter(c, s.counters, q, e.action)])
  }

  /** The state a sequence of events leads to, if each of them was possible when it happened. */
  function Execute(c: Settings, run: seq<Event>): Option<State> {
    if run == [] then Some(Init(c))
    else
      match Execute(c, run[..|run| - 1])
      case None => None
      case Some(s) => if Enabled(s, run[|run| - 1]) then Some(Next(c, s, run[|run| - 1])) else None
  }

  // ----- what each request contributes to the shared counters

  predicate HoldsSlot(q: Request) {
    var p := q.phase;
    p == LeavingQueue(WithSlot) || p.Acquired? || p.Running? || p.FailCounting? || p.Finishing? || p.Releasing?
  }

  predicate Admitted(q: Request) {
    q.phase.Queued? || q.phase.ExpiryCounting? || q.phase.LeavingQueue?
  }

  predicate Overshooting(q: Request) {
    q.phase.Rejecting?
  }

  predicate OnGauge(q: Request) {
    q.phase.Running? || q.phase.FailCounting? || q.phase.Finishing?
  }

  /** The outcome a request is committed to, once it is past its accounting. */
  function Committed(q: Request): Option<Outcome> {
    match q.phase
    case LeavingQueue(Expired) => Some(Failed(Busy))
    case LeavingQueue(Abandoned) => Some(CancelledEarly)
    case Finishing(o) => Some(o)
    case Releasing(o) => Some(o)
    case Done(o) => Some(o)
    case _ => None
  }

  predicate HasSucceeded(q: Request) { Committed(q) == Some(Succeeded) }

  predicate HasFailed(q: Request) { Committed(q).Some? && Committed(q).value.Failed? }

  predicate GaveUp(q: Request) { Committed(q) == Some(CancelledEarly) }

  predicate InFlight(q: Request) { Committed(q).None? }

  predicate FailedWith(q: Request, code: Code) { Committed(q) == Some(Failed(code)) }

  function FailedAs(code: Code): Request -> bool {
    (q: Request) => FailedWith(q, code)
  }

  ghost predicate Inv(c: Settings, s: State) {
    && 0 <= s.counters.free
    && s.counters.free + Count(s.requests, HoldsSlot) == c.maxConcurrent
    && s.counters.waiting == Count(s.requests, Admitted) + Count(s.requests, Overshooting)
    && Count(s.requests, Admitted) <= c.maxQueued
    && s.counters.active == Count(s.requests, OnGauge)
    && s.counters.started == |s.requests|
    && FailuresCounted(s)
  }

  /** The metric of failures agrees with the requests, code by code and in total. */
  ghost predicate FailuresCounted(s: State) {
    && |s.counters.failed| == Count(s.requests, HasFailed)
    && forall code :: s.counters.failed[code] == Count(s.requests, FailedAs(code))
  }

  lemma SlotBalance(c: Settings, k: Counters, q: Request, a: Action)
    requires Possible(k, q, a)
    ensures CountersAfter(k, q, a).free + One(HoldsSlot(RequestAfter(c, k, q, a))) == k.free + One(HoldsSlot(q))
    ensures CountersAfter(k, q, a).free < k.free ==> k.free > 0
  {
  }

  lemma QueueBalance(c: Settings, k: Counters, q: Request, a: Action)
    requires Possible(k, q, a)
    ensures var q' := RequestAfter(c, k, q, a);
            && CountersAfter(k, q, a).waiting - One(Admitted(q')) - One(Overshooting(q'))
                 == k.waiting - One(Admitted(q)) - One(Overshooting(q))
            && (One(Admitted(q')) > One(Admitted(q)) ==> k.waiting < c.maxQueued)
  {
  }

  lemma GaugeBalance(c: Settings, k: Counters, q: Request, a: Action)
    requires Possible(k, q, a)
    ensures CountersAfter(k, q, a).active - One(OnGauge(RequestAfter(c, k, q, a))) == k.active - One(OnGauge(q))
    ensures CountersAfter(k, q, a).started == k.started + One(q.phase.Outside?)
  {
  }

  /** One event settles exactly what its request contributes to each shared counter. */
  lemma Balance(c: Settings, k: Counters, q: Request, a: Action)
    requires Possible(k, q, a)
    ensures var q', k' := RequestAfter(c, k, q, a), CountersAfter(k, q, a);
            && k'.free + One(HoldsSlot(q')) == k.free + One(HoldsSlot(q))
            && (k'.free < k.free ==> k.free > 0)
            && k'.waiting - One(Admitted(q')) - One(Overshooting(q')) == k.waiting - One(Admitted(q)) - One(Overshooting(q))
            && (One(Admitted(q')) > One(Admitted(q)) ==> k.waiting < c.maxQueued)
            && k'.active - One(OnGauge(q')) == k.active - One(OnGauge(q))
            && k'.started == k.started + One(q.phase.Outside?)
  {
    SlotBalance(c, k, q, a);
    QueueBalance(c, k, q, a);
    GaugeBalance(c, k, q, a);
  }

  lemma FailureBalance(c: Settings, k: Counters, q: Request, a: Action, code: Code)
    requires Possible(k, q, a)
    ensures CountersAfter(k, q, a).failed[code] - One(FailedWith(RequestAfter(c, k, q, a), code)) == k.failed[code] - One(FailedWith(q, code))
    ensures |CountersAfter(k, q, a).failed| - One(HasFailed(RequestAfter(c, k, q, a))) == |k.failed| - One(HasFailed(q))
  {
    if a.Advance? {
      AdvanceFailureBalance(c, k, q, code);
    }
  }

  /** The failure a request counts in its next access, if any. */
  function CountsNext(q: Request): Option<Code> {
    match q.phase
    case RejectCounting => Some(Busy)
    case ExpiryCounting => Some(Busy)
    case FailCounting(x) => Some(x)
    case _ => None
  }

  lemma CountsWhatItSays(k: Counters, q: Request)
    requires Possible(k, q, Advance)
    ensures NextCounters(k, q).failed == if CountsNext(q).Some? then k.failed + multiset{CountsNext(q).value} else k.failed
  {
  }

  lemma CommitsWhenCounting(c: Settings, k: Counters, q: Request)
    requires Possible(k, q, Advance)
    ensures var after := Committed(Request(NextPhase(c, k, q), q.cancelled));
            match CountsNext(q)
            case Some(code) => Committed(q).None? && after == Some(Failed(code))
            case None => after == Committed(q) || after == Some(CancelledEarly)
  {
  }

  lemma AdvanceFailureBalance(c: Settings, k: Counters, q: Request, code: Code)
    requires Possible(k, q, Advance)
    ensures NextCounters(k, q).failed[code] - One(FailedWith(Request(NextPhase(c, k, q), q.cancelled), code)) == k.failed[code] - One(FailedWith(q, code))
    ensures |NextCounters(k, q).failed| - One(HasFailed(Request(NextPhase(c, k, q), q.cancelled))) == |k.failed| - One(HasFailed(q))
  {
    CountsWhatItSays(k, q);
    CommitsWhenCounting(c, k, q);
    if CountsNext(q).Some? {
      CountOne(k.failed, CountsNext(q).value, code);
    }
  }

  lemma CountOne<T>(m: multiset<T>, x: T, y: T)
    ensures (m + multiset{x})[y] == m[y] + One(x == y) && |m + multiset{x}| == |m| + 1
  {
  }

  /** The table's counts move with the request that changes; a request not yet in it counts nowhere. */
  lemma CountMoves(m: map<Id, Request>, id: Id, q: Request, p: Request -> bool)
    requires !p(Request(Outside, false))
    ensures Count(m[id := q], p) == Count(m, p) - One(p(Lookup(m, id))) + One(p(q))
  {
    CountUpdate(m, id, q, p);
  }

  lemma FailuresStep(c: Settings, s: State, e: Event)
    requires FailuresCounted(s) && Enabled(s, e)
    ensures FailuresCounted(Next(c, s, e))
  {
    var q := Lookup(s.requests, e.id);
    var q' := RequestAfter(c, s.counters, q, e.action);
    forall code
      ensures Next(c, s, e).counters.failed[code] == Count(Next(c, s, e).requests, FailedAs(code))
    {
      FailureBalance(c, s.counters, q, e.action, code);
      CountMoves(s.requests, e.id, q', FailedAs(code));
    }
    FailureBalance(c, s.counters, q, e.action, Busy);
    CountMoves(s.requests, e.id, q', HasFailed);
  }

  ghost predicate NoneOutside(s: State) {
    forall id :: id in s.requests ==> !s.requests[id].phase.Outside?
  }

  lemma QueueStep(c: Settings, s: State, e: Event)
    requires Inv(c, s) && Enabled(s, e)
    ensures var n := Next(c, s, e);
            && n.counters.waiting == Count(n.requests, Admitted) + Count(n.requests, Overshooting)
            && Count(n.requests, Admitted) <= c.maxQueued
  {
    var q := Lookup(s.requests, e.id);
    var q' := RequestAfter(c, s.counters, q, e.action);
    Balance(c, s.counters, q, e.action);
    CountMoves(s.requests, e.id, q', Admitted);
    CountMoves(s.requests, e.id, q', Overshooting);
  }

  lemma TableStep(c: Settings, s: State, e: Event)
    requires s.counters.started == |s.requests| && NoneOutside(s) && Enabled(s, e)
    ensures Next(c, s, e).counters.started == |Next(c, s, e).requests| && NoneOutside(Next(c, s, e))
  {
    assert e.action.Arrive? <==> e.id !in s.requests;
  }

  lemma SlotStep(c: Settings, s: State, e: Event)
    requires Inv(c, s) && Enabled(s, e)
    ensures var n := Next(c, s, e);
            && 0 <= n.counters.free
            && n.counters.free + Count(n.requests, HoldsSlot) == c.maxConcurrent
            && n.counters.active == Count(n.requests, OnGauge)
  {
    var q := Lookup(s.requests, e.id);
    var q' := RequestAfter(c, s.counters, q, e.action);
    Balance(c, s.counters, q, e.action);
    CountMoves(s.requests, e.id, q', HoldsSlot);
    CountMoves(s.requests, e.id, q', OnGauge);
  }

  /** Every event of every request keeps the invariant. */
  lemma InvStep(c: Settings, s: State, e: Event)
    requires Inv(c, s) && NoneOutside(s) && Enabled(s, e)
    ensures Inv(c, Next(c, s, e)) && NoneOutside(Next(c, s, e))
  {
    SlotStep(c, s, e);
    QueueStep(c, s, e);
    TableStep(c, s, e);
    FailuresStep(c, s, e);
  }

  /** Safety over all runs: whatever the interleaving, slots are conserved, the waiting counter is
      the admitted waiters plus the rejected requests that have not yet decremented it, the
      admitted waiters never exceed the limit, and the metrics agree with the requests. */
  lemma {:induction false} SafeInEveryRun(c: Settings, run: seq<Event>)
    requires Execute(c, run).Some?
    ensures Inv(c, Execute(c, run).value) && NoneOutside(Execute(c, run).value)
  {
    if run == [] {
      forall p: Request -> bool
        ensures Count(Init(c).requests, p) == 0
      {
        CountZero(Init(c).requests, p);
      }
    } else {
      SafeInEveryRun(c, run[..|run| - 1]);
      InvStep(c, Execute(c, run[..|run| - 1]).value, run[|run| - 1]);
    }
  }

  // ----- accounting and quiescence

  ghost predicate AllDone(s: State) {
    forall id :: id in s.requests ==> s.requests[id].phase.Done?
  }

  lemma OneOutcome(q: Request)
    ensures One(HasSucceeded(q)) + One(HasFailed(q)) + One(GaveUp(q)) + One(InFlight(q)) == 1
  {
    match Committed(q)
    case None =>
    case Some(o) =>
  }

  /** Requests started are the successes, the failures counted by code, the requests cancelled
      before they got a slot (which the code counts nowhere), and those still in flight. */
  lemma Accounting(c: Settings, run: seq<Event>)
    requires Execute(c, run).Some?
    ensures var s := Execute(c, run).value;
            s.counters.started == Count(s.requests, HasSucceeded) + |s.counters.failed| + Count(s.requests, GaveUp) + Count(s.requests, InFlight)
  {
    var m := Execute(c, run).value.requests;
    SafeInEveryRun(c, run);
    forall id | id in m
      ensures One(HasSucceeded(m[id])) + One(HasFailed(m[id])) + One(GaveUp(m[id])) + One(InFlight(m[id])) == 1
    {
      OneOutcome(m[id]);
    }
    CountPartition(m, HasSucceeded, HasFailed, GaveUp, InFlight);
  }

  /** When no request is live everything is back where it started. */
  lemma QuiescentIsClean(c: Settings, run: seq<Event>)
    requires Execute(c, run).Some? && AllDone(Execute(c, run).value)
    ensures var s := Execute(c, run).value;
            && s.counters.free == c.maxConcurrent && s.counters.waiting == 0 && s.counters.active == 0
            && s.counters.started == Count(s.requests, HasSucceeded) + |s.counters.failed| + Count(s.requests, GaveUp)
  {
    var m := Execute(c, run).value.requests;
    SafeInEveryRun(c, run);
    Accounting(c, run);
    CountZero(m, HoldsSlot);
    CountZero(m, Admitted);
    CountZero(m, Overshooting);
    CountZero(m, OnGauge);
    CountZero(m, InFlight);
  }

  /** A request that left without a slot and without a failure had its token fired. */
  lemma {:induction false} GaveUpWhenCancelled(c: Settings, run: seq<Event>, id: Id)
    requires Execute(c, run).Some?
    ensures var q := Lookup(Execute(c, run).value.requests, id); GaveUp(q) ==> q.cancelled
  {
    if run != [] {
      GaveUpWhenCancelled(c, run[..|run| - 1], id);
      var s, e := Execute(c, run[..|run| - 1]).value, run[|run| - 1];
      if e.id == id {
        StaysCancelled(c, s.counters, Lookup(s.requests, id), e.action);
      }
    }
  }

  lemma StaysCancelled(c: Settings, k: Counters, q: Request, a: Action)
    requires Possible(k, q, a) && (GaveUp(q) ==> q.cancelled)
    ensures var after := RequestAfter(c, k, q, a);
            && (GaveUp(after) ==> after.cancelled)
            && (!a.Arrive? && q.cancelled ==> after.cancelled)
  {
  }

  // ----- why requests were turned away

  /** How many events of a run turned a request away for a full queue, or let its wait run out. */
  ghost function TurnedAway(c: Settings, run: seq<Event>, expired: bool): nat
    requires Execute(c, run).Some?
  {
    if run == [] then 0
    else
      var e := run[|run| - 1];
      TurnedAway(c, run[..|run| - 1], expired)
      + One(if expired then e.action.Expire? else Execute(c, run).value.requests[e.id].phase.Rejecting? && e.action.Advance?)
  }

  predicate FullNotCounted(q: Request) { q.phase.Rejecting? || q.phase.RejectCounting? }

  predicate ExpiryNotCounted(q: Request) { q.phase.ExpiryCounting? }

  /** The label a request counts in its next access, beside the failure. */
  function LabelsNext(q: Request): multiset<Label> {
    match q.phase
    case RejectCounting => multiset{QueueFull}
    case ExpiryCounting => multiset{QueueTimeout}
    case FailCounting(x) => RefusalLabels(x)
    case _ => multiset{}
  }

  lemma LabelsWhatItSays(k: Counters, q: Request, a: Action)
    requires Possible(k, q, a)
    ensures CountersAfter(k, q, a).rejected == if a.Advance? then k.rejected + LabelsNext(q) else k.rejected
  {
  }

  lemma FullBalance(c: Settings, k: Counters, q: Request, a: Action)
    requires Possible(k, q, a)
    ensures CountersAfter(k, q, a).rejected[QueueFull] + One(FullNotCounted(RequestAfter(c, k, q, a)))
         == k.rejected[QueueFull] + One(FullNotCounted(q)) + One(a.Advance? && RequestAfter(c, k, q, a).phase.Rejecting?)
  {
    LabelsWhatItSays(k, q, a);
  }

  lemma TimeoutBalance(c: Settings, k: Counters, q: Request, a: Action)
    requires Possible(k, q, a)
    ensures CountersAfter(k, q, a).rejected[QueueTimeout] + One(ExpiryNotCounted(RequestAfter(c, k, q, a)))
         == k.rejected[QueueTimeout] + One(ExpiryNotCounted(q)) + One(a.Expire?)
  {
    LabelsWhatItSays(k, q, a);
  }

  lemma RefusalBalance(k: Counters, q: Request, a: Action, code: Code)
    requires Possible(k, q, a) && (code.ValidationFailed? || code.DestinationBlocked?)
    ensures CountersAfter(k, q, a).rejected[Refused(code)] + k.failed[code]
         == CountersAfter(k, q, a).failed[code] + k.rejected[Refused(code)]
  {
    if a.Advance? {
      CountsWhatItSays(k, q);
      var next := CountsNext(q);
      if next.Some? {
        CountOne(k.failed, next.value, code);
        RefusalLabelled(k, q, code);
      }
    }
  }

  lemma RefusalLabelled(k: Counters, q: Request, code: Code)
    requires Possible(k, q, Advance) && CountsNext(q).Some? && (code.ValidationFailed? || code.DestinationBlocked?)
    ensures NextCounters(k, q).rejected[Refused(code)] == k.rejected[Refused(code)] + One(CountsNext(q).value == code)
  {
  }

  /** The metric of rejections tells the causes apart: each full queue and each expired wait is
      counted once under its own label, and refused destinations as often as they fail. */
  lemma {:induction false} RejectionsByCause(c: Settings, run: seq<Event>)
    requires Execute(c, run).Some?
    ensures var s := Execute(c, run).value;
            && s.counters.rejected[QueueFull] + Count(s.requests, FullNotCounted) == TurnedAway(c, run, false)
            && s.counters.rejected[QueueTimeout] + Count(s.requests, ExpiryNotCounted) == TurnedAway(c, run, true)
            && (forall code :: code == ValidationFailed || code == DestinationBlocked
                  ==> s.counters.rejected[Refused(code)] == s.counters.failed[code])
  {
    if run == [] {
      CountZero(Init(c).requests, FullNotCounted);
      CountZero(Init(c).requests, ExpiryNotCounted);
    } else {
      var s, e := Execute(c, run[..|run| - 1]).value, run[|run| - 1];
      var q := Lookup(s.requests, e.id);
      var q' := RequestAfter(c, s.counters, q, e.action);
      RejectionsByCause(c, run[..|run| - 1]);
      FullBalance(c, s.counters, q, e.action);
      TimeoutBalance(c, s.counters, q, e.action);
      CountMoves(s.requests, e.id, q', FullNotCounted);
      CountMoves(s.requests, e.id, q', ExpiryNotCounted);
      RefusalBalance(s.counters, q, e.action, ValidationFailed);
      RefusalBalance(s.counters, q, e.action, DestinationBlocked);
    }
  }

  /** One event settles the size of the metric of rejections: it grows by the causes alone. */
  lemma RejectionSizeBalance(c: Settings, k: Counters, q: Request, a: Action)
    requires Possible(k, q, a)
    ensures var k', q' := CountersAfter(k, q, a), RequestAfter(c, k, q, a);
            |k'.rejected| + One(FullNotCounted(q')) + One(ExpiryNotCounted(q')) + k.failed[ValidationFailed] + k.failed[DestinationBlocked]
              == |k.rejected| + One(FullNotCounted(q)) + One(ExpiryNotCounted(q))
                 + One(a.Advance? && q'.phase.Rejecting?) + One(a.Expire?)
                 + k'.failed[ValidationFailed] + k'.failed[DestinationBlocked]
  {
    LabelsWhatItSays(k, q, a);
    LabelsInAll(q);
    RefusalMoves(k, q, a, ValidationFailed);
    RefusalMoves(k, q, a, DestinationBlocked);
    WaitingToCount(c, k, q, a);
  }

  lemma LabelsInAll(q: Request)
    ensures |LabelsNext(q)| == One(q.phase.RejectCounting?) + One(q.phase.ExpiryCounting?)
                               + One(q.phase == FailCounting(ValidationFailed)) + One(q.phase == FailCounting(DestinationBlocked))
  {
  }

  lemma RefusalMoves(k: Counters, q: Request, a: Action, code: Code)
    requires Possible(k, q, a) && (code.ValidationFailed? || code.DestinationBlocked?)
    ensures CountersAfter(k, q, a).failed[code] == k.failed[code] + One(a.Advance? && q.phase == FailCounting(code))
  {
    if a.Advance? {
      CountsWhatItSays(k, q);
    }
  }

  lemma WaitingToCount(c: Settings, k: Counters, q: Request, a: Action)
    requires Possible(k, q, a)
    ensures var q' := RequestAfter(c, k, q, a);
            && One(FullNotCounted(q')) + One(a.Advance? && q.phase.RejectCounting?)
                 == One(FullNotCounted(q)) + One(a.Advance? && q'.phase.Rejecting?)
            && One(ExpiryNotCounted(q')) + One(a.Advance? && q.phase.ExpiryCounting?) == One(ExpiryNotCounted(q)) + One(a.Expire?)
  {
  }

  /** The metric of rejections has nothing but these causes: its size is the full queues and expired waits
      that have been counted and the two kinds of refused destination. */
  lemma {:induction false} RejectionsInAll(c: Settings, run: seq<Event>)
    requires Execute(c, run).Some?
    ensures var s := Execute(c, run).value;
            |s.counters.rejected| + Count(s.requests, FullNotCounted) + Count(s.requests, ExpiryNotCounted)
              == TurnedAway(c, run, false) + TurnedAway(c, run, true)
                 + s.counters.failed[ValidationFailed] + s.counters.failed[DestinationBlocked]
  {
    if run == [] {
      CountZero(Init(c).requests, FullNotCounted);
      CountZero(Init(c).requests, ExpiryNotCounted);
    } else {
      var s, e := Execute(c, run[..|run| - 1]).value, run[|run| - 1];
      var q := Lookup(s.requests, e.id);
      var q' := RequestAfter(c, s.counters, q, e.action);
      RejectionsInAll(c, run[..|run| - 1]);
      RejectionSizeBalance(c, s.counters, q, e.action);
      CountMoves(s.requests, e.id, q', FullNotCounted);
      CountMoves(s.requests, e.id, q', ExpiryNotCounted);
    }
  }

  lemma WithoutOne<T>(m: multiset<T>, x: T)
    ensures |m[x := 0]| == |m| - m[x] && forall y :: m[x := 0][y] == if y == x then 0 else m[y]
  {
    assert m == m[x := 0] + multiset{x}[x := m[x]];
  }

  lemma FourAndOne(m: multiset<Label>, other: Label)
    requires other !in {QueueFull, QueueTimeout, Refused(ValidationFailed), Refused(DestinationBlocked)}
    ensures m[QueueFull] + m[QueueTimeout] + m[Refused(ValidationFailed)] + m[Refused(DestinationBlocked)] + m[other] <= |m|
  {
    var a := m[QueueFull := 0];
    var b := a[QueueTimeout := 0];
    var d := b[Refused(ValidationFailed) := 0];
    var e := d[Refused(DestinationBlocked) := 0];
    WithoutOne(m, QueueFull);
    WithoutOne(a, QueueTimeout);
    WithoutOne(b, Refused(ValidationFailed));
    WithoutOne(d, Refused(DestinationBlocked));
    WithoutOne(e, other);
  }

  /** So no other failure, a deadline or an error of the work for one, ever counts as a rejection. */
  lemma NoOtherRejection(c: Settings, run: seq<Event>, other: Label)
    requires Execute(c, run).Some?
    requires other !in {QueueFull, QueueTimeout, Refused(ValidationFailed), Refused(DestinationBlocked)}
    ensures Execute(c, run).value.counters.rejected[other] == 0
  {
    RejectionsInAll(c, run);
    RejectionsByCause(c, run);
    FourAndOne(Execute(c, run).value.counters.rejected, other);
  }

  // ----- arriving

  /** A request whose token has fired before its first access changes no counter with any access, and can only
      end cancelled. */
  lemma FiredOnArrival(c: Settings, k: Counters, q: Request, a: Action)
    requires Possible(k, q, a) && q.cancelled && (q.phase.Arriving? || q.phase == Done(CancelledEarly))
    ensures CountersAfter(k, q, a) == k && RequestAfter(c, k, q, a) == Request(Done(CancelledEarly), true)
  {
  }

  /** In every run: a request whose token fired before its first access never takes a slot, is never turned
      away, waits for nothing and ends cancelled. */
  lemma {:induction false} FiredBeforeItStarts(c: Settings, run: seq<Event>, n: nat, id: Id)
    requires Execute(c, run).Some? && n <= |run| && Execute(c, run[..n]).Some?
    requires Lookup(Execute(c, run[..n]).value.requests, id) == Request(Arriving, true)
    ensures var q := Lookup(Execute(c, run).value.requests, id);
            && q.cancelled && (q.phase.Arriving? || q.phase == Done(CancelledEarly))
            && SlotMoves(c, run, id, true) == 0
  {
    if n == |run| {
      assert run[..n] == run;
      ReleasedOnce(c, run, id);
    } else {
      var front, e := run[..|run| - 1], run[|run| - 1];
      assert front[..n] == run[..n];
      FiredBeforeItStarts(c, front, n, id);
      var s := Execute(c, front).value;
      if e.id == id {
        FiredOnArrival(c, s.counters, Lookup(s.requests, id), e.action);
      }
    }
  }

  /** A request that arrives with its token not fired takes a free slot in its first access, and otherwise goes
      on to the queue; neither counts anything. */
  lemma ArrivesInTime(c: Settings, s: State, id: Id)
    requires Lookup(s.requests, id) == Request(Arriving, false)
    ensures Enabled(s, Event(id, Advance))
    ensures var n := Next(c, s, Event(id, Advance));
            if s.counters.free > 0 then
              Lookup(n.requests, id) == Request(Acquired, false) && n.counters == s.counters.(free := s.counters.free - 1)
            else
              Lookup(n.requests, id) == Request(Overflowing, false) && n.counters == s.counters
  {
  }

  // ----- each slot is released exactly once

  /** How often the events of one request lowered (`taken`) or raised the semaphore's count. */
  ghost function SlotMoves(c: Settings, run: seq<Event>, id: Id, taken: bool): nat
    requires Execute(c, run).Some?
  {
    if run == [] then 0
    else
      var before, after := Execute(c, run[..|run| - 1]).value.counters.free, Execute(c, run).value.counters.free;
      SlotMoves(c, run[..|run| - 1], id, taken)
      + One(run[|run| - 1].id == id && if taken then after < before else after > before)
  }

  predicate MayStillAcquire(q: Request) {
    q.phase.Outside? || q.phase.Arriving? || q.phase.Overflowing? || q.phase.Queued?
  }

  lemma OnlyWaitersAcquire(c: Settings, k: Counters, q: Request, a: Action)
    requires Possible(k, q, a)
    ensures CountersAfter(k, q, a).free < k.free ==> MayStillAcquire(q)
    ensures MayStillAcquire(RequestAfter(c, k, q, a)) ==> MayStillAcquire(q) && !HoldsSlot(RequestAfter(c, k, q, a))
  {
  }

  /** A request takes at most one slot, and has given back every slot it took unless it holds it now;
      so a finished request released exactly what it acquired, on whichever exit it left. */
  lemma {:induction false} ReleasedOnce(c: Settings, run: seq<Event>, id: Id)
    requires Execute(c, run).Some?
    ensures var q := Lookup(Execute(c, run).value.requests, id);
            && SlotMoves(c, run, id, true) <= 1
            && SlotMoves(c, run, id, true) == SlotMoves(c, run, id, false) + One(HoldsSlot(q))
            && (MayStillAcquire(q) ==> SlotMoves(c, run, id, true) == 0)
  {
    if run != [] {
      var before, e := Execute(c, run[..|run| - 1]).value, run[|run| - 1];
      ReleasedOnce(c, run[..|run| - 1], id);
      OnlyWaitersAcquire(c, before.counters, Lookup(before.requests, e.id), e.action);
      Balance(c, before.counters, Lookup(before.requests, e.id), e.action);
    }
  }

  // ----- every run is finite and can be completed

  const MAX_EVENTS := 11

  /** How many events a request can still have. */
  function Remaining(q: Request): nat {
    One(!q.cancelled) +
    match q.phase
    case Outside => 10
    case Arriving => 9
    case Overflowing => 8
    case Queued => 7
    case LeavingQueue(x) => if x.WithSlot? then 6 else 1
    case Acquired => 5
    case Running => 4
    case FailCounting(_) => 3
    case Finishing(_) => 2
    case Rejecting => 2
    case ExpiryCounting => 2
    case Releasing(_) => 1
    case RejectCounting => 1
    case Done(_) => 0
  }

  lemma EventsRunOut(c: Settings, k: Counters, q: Request, a: Action)
    requires Possible(k, q, a) && (q.phase.Outside? ==> !q.cancelled)
    ensures Remaining(RequestAfter(c, k, q, a)) < Remaining(q)
  {
  }

  /** No run is longer than eleven events for each request in it. */
  lemma {:induction false} BoundedRuns(c: Settings, run: seq<Event>)
    requires Execute(c, run).Some?
    ensures var s := Execute(c, run).value;
            |run| + Sum(s.requests, Remaining) <= MAX_EVENTS * |s.requests|
  {
    if run != [] {
      var s, e := Execute(c, run[..|run| - 1]).value, run[|run| - 1];
      BoundedRuns(c, run[..|run| - 1]);
      SafeInEveryRun(c, run[..|run| - 1]);
      var q' := RequestAfter(c, s.counters, Lookup(s.requests, e.id), e.action);
      EventsRunOut(c, s.counters, Lookup(s.requests, e.id), e.action);
      SumUpdate(s.requests, e.id, q', Remaining);
      assert e.action.Arrive? <==> e.id !in s.requests;
    }
  }

  /** A request that is not done always has an event that does not depend on any other request. */
  function OwnEvent(q: Request): Action {
    match q.phase
    case Outside => Arrive
    case Queued => Expire
    case Running => Finish(Returns)
    case _ => Advance
  }

  lemma Snoc(c: Settings, run: seq<Event>, e: Event)
    requires Execute(c, run).Some? && Enabled(Execute(c, run).value, e)
    ensures Execute(c, run + [e]) == Some(Next(c, Execute(c, run).value, e))
  {
    assert (run + [e])[..|run|] == run;
  }

  lemma OwnStep(c: Settings, run: seq<Event>, id: Id)
    requires Execute(c, run).Some? && id in Execute(c, run).value.requests && !Execute(c, run).value.requests[id].phase.Done?
    ensures var s, e := Execute(c, run).value, Event(id, OwnEvent(Execute(c, run).value.requests[id]));
            && Enabled(s, e) && Execute(c, run + [e]) == Some(Next(c, s, e)) && !e.action.Arrive?
            && Next(c, s, e).requests.Keys == s.requests.Keys
            && Sum(Next(c, s, e).requests, Remaining) < Sum(s.requests, Remaining)
  {
    var s, e := Execute(c, run).value, Event(id, OwnEvent(Execute(c, run).value.requests[id]));
    SafeInEveryRun(c, run);
    Snoc(c, run, e);
    EventsRunOut(c, s.counters, s.requests[id], e.action);
    SumUpdate(s.requests, id, RequestAfter(c, s.counters, s.requests[id], e.action), Remaining);
  }

  lemma Regroup(run: seq<Event>, e: Event, more: seq<Event>)
    ensures run + ([e] + more) == run + [e] + more
  {
  }

  /** No deadlock: from any point of any run the requests then present can all reach the end,
      without another one arriving. */
  lemma {:induction false} CanAlwaysDrain(c: Settings, run: seq<Event>) returns (rest: seq<Event>)
    requires Execute(c, run).Some?
    ensures Execute(c, run + rest).Some? && AllDone(Execute(c, run + rest).value)
    ensures Execute(c, run + rest).value.requests.Keys == Execute(c, run).value.requests.Keys
    ensures forall i :: 0 <= i < |rest| ==> !rest[i].action.Arrive?
    decreases Sum(Execute(c, run).value.requests, Remaining)
  {
    var s := Execute(c, run).value;
    if AllDone(s) {
      rest := [];
      assert run + rest == run;
    } else {
      var id :| id in s.requests && !s.requests[id].phase.Done?;
      OwnStep(c, run, id);
      var e := Event(id, OwnEvent(s.requests[id]));
      var more := CanAlwaysDrain(c, run + [e]);
      rest := [e] + more;
      Regroup(run, e, more);
    }
  }

  // ----- the queue limit overshoots

  /** A request that finds no slot is turned away exactly when the admitted waiters together with
      the rejected requests that have not yet decremented the counter fill the queue. */
  lemma RejectedWhen(c: Settings, run: seq<Event>, id: Id)
    requires Execute(c, run).Some? && Lookup(Execute(c, run).value.requests, id).phase.Overflowing?
    ensures var s := Execute(c, run).value;
            Lookup(Next(c, s, Event(id, Advance)).requests, id).phase
              == if Count(s.requests, Admitted) + Count(s.requests, Overshooting) >= c.maxQueued then Rejecting else Queued
  {
    SafeInEveryRun(c, run);
  }

  lemma Play(c: Settings, run: seq<Event>, s: State, id: Id, a: Action) returns (run': seq<Event>, s': State)
    requires Execute(c, run) == Some(s) && Enabled(s, Event(id, a))
    ensures run' == run + [Event(id, a)] && s' == Next(c, s, Event(id, a)) && Execute(c, run') == Some(s')
  {
    run', s' := run + [Event(id, a)], Next(c, s, Event(id, a));
    Snoc(c, run, Event(id, a));
  }

  lemma OneWaiter() returns (run: seq<Event>, s: State)
    ensures Execute(Settings(1, 1), run) == Some(s)
    ensures s.requests == map[0 := Request(Acquired, false), 1 := Request(Queued, false)]
    ensures s.counters.free == 0 && s.counters.waiting == 1
  {
    var c := Settings(1, 1);
    run, s := [], Init(c);
    run, s := Play(c, run, s, 0, Arrive);
    run, s := Play(c, run, s, 0, Advance);
    run, s := Play(c, run, s, 1, Arrive);
    run, s := Play(c, run, s, 1, Advance);
    run, s := Play(c, run, s, 1, Advance);
  }

  /** One slot taken, one waiter, and a third request that overshot the queue limit. */
  lemma FullQueue() returns (run: seq<Event>, s: State)
    ensures Execute(Settings(1, 1), run) == Some(s)
    ensures s.requests == map[0 := Request(Acquired, false), 1 := Request(Queued, false), 2 := Request(Rejecting, false)]
    ensures s.counters.free == 0 && s.counters.waiting == 2
  {
    var c := Settings(1, 1);
    run, s := OneWaiter();
    run, s := Play(c, run, s, 2, Arrive);
    run, s := Play(c, run, s, 2, Advance);
    run, s := Play(c, run, s, 2, Advance);
  }

  /** The waiter gives up before the rejected request has decremented the counter. */
  lemma LingeringRejection() returns (run: seq<Event>, s: State)
    ensures Execute(Settings(1, 1), run) == Some(s)
    ensures s.requests == map[0 := Request(Acquired, false), 1 := Request(Done(Failed(Busy)), false), 2 := Request(Rejecting, false)]
    ensures s.counters.free == 0 && s.counters.waiting == 1
  {
    var c := Settings(1, 1);
    run, s := FullQueue();
    run, s := Play(c, run, s, 1, Expire);
    run, s := Play(c, run, s, 1, Advance);
    run, s := Play(c, run, s, 1, Advance);
  }

  /** So "a request is refused only when the queue is full" is false: here nobody waits at all,
      and a request is refused. */
  lemma RefusedAlthoughQueueIsEmpty() returns (run: seq<Event>, id: Id)
    ensures Execute(Settings(1, 1), run).Some?
    ensures var s := Execute(Settings(1, 1), run).value;
            && Count(s.requests, Admitted) == 0 && Lookup(s.requests, id).phase.Overflowing?
            && Lookup(Next(Settings(1, 1), s, Event(id, Advance)).requests, id).phase.Rejecting?
  {
    var s;
    id := 3;
    run, s := LingeringRejection();
    run, s := Play(Settings(1, 1), run, s, id, Arrive);
    run, s := Play(Settings(1, 1), run, s, id, Advance);
    CountZero(s.requests, Admitted);
  }

  // ----- the object

  /** How a queued request's wait is meant to end; a grant needs a free slot. */
  datatype Wait = GetsSlot | RunsOut | IsCancelled

  /** Whether a request's next access is one of `AcquireAsync`. */
  predicate InAcquire(q: Request) {
    q.phase.Arriving? || q.phase.Overflowing? || q.phase.Rejecting? || q.phase.RejectCounting?
    || q.phase.ExpiryCounting? || q.phase.LeavingQueue?
  }

  /** What the caller of a request that got its slot may see, given how its work ended and whether its token
      has fired by now: without that, a cancelled work is a deadline. */
  predicate OutcomeOf(work: Work, o: Outcome, fired: bool) {
    match work
    case Returns => o == Succeeded
    case ThrowsCancelled => o == Failed(Timeout) || (o == Failed(Cancelled) && fired)
    case ThrowsProblem(code) => o == Failed(code)
    case ThrowsOther => o == Failed(Internal)
  }

  /** The executor as the object the requests share. `requests` records where each of them stands. */
  class DiagnosticsExecutor {
    const settings: Settings
    var slots: int
    var waiting: int
    var started: nat
    var active: int
    var failed: multiset<Code>
    var rejected: multiset<Label>
    var requests: map<Id, Request>
    ghost var history: seq<Event>

    ghost function View(): State
      reads this
    {
      State(Counters(slots, waiting, started, active, failed, rejected), requests)
    }

    /** The object is in the state its history of events leads to. */
    ghost predicate Valid()
      reads this
    {
      Execute(settings, history) == Some(View())
    }

    constructor (settings: Settings)
      ensures Valid() && this.settings == settings && history == [] && requests == map[]
    {
      this.settings := settings;
      slots, waiting, started, active := settings.maxConcurrent, 0, 0, 0;
      failed, rejected, requests := multiset{}, multiset{}, map[];
      history := [];
    }

    /** One access of one request, in place. */
    method Perform(e: Event)
      requires Valid() && Enabled(View(), e)
      modifies this
      ensures Valid() && history == old(history) + [e]
      ensures View() == Next(settings, old(View()), e)
    {
      Snoc(settings, history, e);
      history := history + [e];
      var q := if e.id in requests then requests[e.id] else Request(Outside, false);
      match e.action {
        case Arrive =>
          started := started + 1;
          q := Request(Arriving, false);
        case Cancel =>
          q := q.(cancelled := true);
        case Grant =>
          slots := slots - 1;
          q := q.(phase := LeavingQueue(WithSlot));
        case Expire =>
          q := q.(phase := ExpiryCounting);
        case Abandon =>
          q := q.(phase := LeavingQueue(Abandoned));
        case Finish(work) =>
          q := q.(phase := AfterWork(work, q.cancelled));
        case Advance =>
          var p;
          if InAcquire(q) {
            p := QueueAccess(q);
          } else {
            p := WorkAccess(q);
          }
          q := q.(phase := p);
      }
      requests := requests[e.id := q];
    }

    /** The accesses of `AcquireAsync` that can happen in one way only. */
    method QueueAccess(q: Request) returns (p: Phase)
      requires Possible(View().counters, q, Advance) && InAcquire(q)
      modifies this`slots, this`waiting, this`failed, this`rejected
      ensures p == NextPhase(settings, old(View()).counters, q)
      ensures View().counters == NextCounters(old(View()).counters, q)
    {
      match q.phase {
        case Arriving =>
          if q.cancelled {
            p := Done(CancelledEarly);
          } else if slots > 0 {
            slots := slots - 1;
            p := Acquired;
          } else {
            p := Overflowing;
          }
        case Overflowing =>
          waiting := waiting + 1;
          p := if waiting > settings.maxQueued then Rejecting else Queued;
        case Rejecting =>
          waiting := waiting - 1;
          p := RejectCounting;
        case RejectCounting =>
          rejected := rejected + multiset{QueueFull};
          failed := failed + multiset{Busy};
          p := Done(Failed(Busy));
        case ExpiryCounting =>
          rejected := rejected + multiset{QueueTimeout};
          failed := failed + multiset{Busy};
          p := LeavingQueue(Expired);
        case LeavingQueue(x) =>
          waiting := waiting - 1;
          p := AfterQueue(x);
      }
    }

    /** The accesses of `ExecuteAsync` around the work. */
    method WorkAccess(q: Request) returns (p: Phase)
      requires Possible(View().counters, q, Advance) && !InAcquire(q)
      modifies this`slots, this`active, this`failed, this`rejected
      ensures p == NextPhase(settings, old(View()).counters, q)
      ensures View().counters == NextCounters(old(View()).counters, q)
    {
      match q.phase {
        case Acquired =>
          active := active + 1;
          p := Running;
        case FailCounting(code) =>
          failed := failed + multiset{code};
          if code.ValidationFailed? || code.DestinationBlocked? {
            rejected := rejected + multiset{Refused(code)};
          }
          p := Finishing(Failed(code));
        case Finishing(o) =>
          active := active - 1;
          p := Releasing(o);
        case Releasing(o) =>
          slots := slots + 1;
          p := Done(o);
      }
    }

    /** What may happen between two accesses of one request: any possible accesses of the others,
        and its own token firing. */
    method Interleave(id: Id, others: seq<Event>)
      requires Valid() && id in requests
      modifies this
      ensures Valid() && id in requests && requests[id].phase == old(requests[id].phase)
      ensures old(history) <= history && (old(requests[id].cancelled) ==> requests[id].cancelled)
    {
      for i := 0 to |others|
        invariant Valid() && id in requests && requests[id].phase == old(requests[id].phase)
        invariant old(history) <= history && (old(requests[id].cancelled) ==> requests[id].cancelled)
      {
        var e := others[i];
        var q := if e.id in requests then requests[e.id] else Request(Outside, false);
        if (e.id != id || e.action.Cancel?) && Possible(Counters(slots, waiting, started, active, failed, rejected), q, e.action) {
          Perform(e);
        }
      }
    }

    /** One access of a request, then whatever the others do. */
    method Do(id: Id, a: Action, others: seq<Event>)
      requires Valid() && id in requests && !a.Arrive? && Possible(View().counters, requests[id], a)
      modifies this
      ensures Valid() && id in requests && old(history) <= history
      ensures requests[id].phase == RequestAfter(settings, old(View()).counters, old(requests[id]), a).phase
      ensures old(requests[id].cancelled) ==> requests[id].cancelled
    {
      Perform(Event(id, a));
      Interleave(id, others);
    }

    /** The whole call: acquire, run the work, count what it threw, and release in the `finally`,
        with the other requests' accesses `others(i)` after its i-th own access. */
    method ExecuteAsync(id: Id, wait: Wait, work: Work, others: nat -> seq<Event>) returns (outcome: Outcome)
      requires Valid() && id !in requests
      modifies this
      ensures Valid() && old(history) <= history
      ensures id in requests && requests[id].phase == Done(outcome)
      ensures || (outcome == CancelledEarly && requests[id].cancelled)
              || outcome == Failed(Busy)
              || OutcomeOf(work, outcome, requests[id].cancelled)
    {
      Perform(Event(id, Arrive));
      Interleave(id, others(0));
      outcome := AcquireAsync(id, wait, others);
      if requests[id].phase.Acquired? {
        outcome := RunAsync(id, work, others);
      } else {
        GaveUpWhenCancelled(settings, history, id);
      }
    }

    /** From the slot in hand to its release. */
    method RunAsync(id: Id, work: Work, others: nat -> seq<Event>) returns (outcome: Outcome)
      requires Valid() && id in requests && requests[id].phase.Acquired?
      modifies this
      ensures Valid() && id in requests && old(history) <= history
      ensures requests[id].phase == Done(outcome) && OutcomeOf(work, outcome, requests[id].cancelled)
    {
      Do(id, Advance, others(6));
      outcome := WorkAsync(id, work, others);
      Finally(id, others);
    }

    /** The work and the catch blocks: whether the token has fired at the catch tells a cancellation from a
        deadline. */
    method WorkAsync(id: Id, work: Work, others: nat -> seq<Event>) returns (outcome: Outcome)
      requires Valid() && id in requests && requests[id].phase.Running?
      modifies this
      ensures Valid() && id in requests && old(history) <= history
      ensures requests[id].phase == Finishing(outcome) && OutcomeOf(work, outcome, requests[id].cancelled)
      ensures work.ThrowsCancelled? ==> outcome == Failed(if old(requests[id].cancelled) then Cancelled else Timeout)
    {
      Do(id, Finish(work), others(7));
      if requests[id].phase.FailCounting? {
        Do(id, Advance, others(8));
      }
      outcome := requests[id].phase.outcome;
    }

    /** The outer `finally`: off the gauge, and the slot back. */
    method Finally(id: Id, others: nat -> seq<Event>)
      requires Valid() && id in requests && requests[id].phase.Finishing?
      modifies this
      ensures Valid() && id in requests && old(history) <= history
      ensures requests[id].phase == Done(old(requests[id].phase.outcome))
      ensures old(requests[id].cancelled) ==> requests[id].cancelled
    {
      Do(id, Advance, others(9));
      Do(id, Advance, others(10));
    }

    /** Either the request holds a slot afterwards, or its call is over with `refusal`. */
    method AcquireAsync(id: Id, wait: Wait, others: nat -> seq<Event>) returns (refusal: Outcome)
      requires Valid() && id in requests && requests[id].phase.Arriving?
      modifies this
      ensures Valid() && id in requests && old(history) <= history
      ensures requests[id].phase == Acquired || requests[id].phase == Done(refusal)
      ensures refusal == CancelledEarly || refusal == Failed(Busy)
      ensures old(requests[id].cancelled) ==> requests[id].phase == Done(CancelledEarly)
      ensures !old(requests[id].cancelled) && old(slots) > 0 ==> requests[id].phase == Acquired
    {
      refusal := CancelledEarly;
      Do(id, Advance, others(1));
      if requests[id].phase.Overflowing? {
        Do(id, Advance, others(2));
        if requests[id].phase.Rejecting? {
          Reject(id, others);
          refusal := Failed(Busy);
        } else {
          refusal := WaitAsync(id, wait, others);
        }
      }
    }

    /** Over the queue limit: the decrement, the metrics and the refusal. */
    method Reject(id: Id, others: nat -> seq<Event>)
      requires Valid() && id in requests && requests[id].phase.Rejecting?
      modifies this
      ensures Valid() && id in requests && old(history) <= history
      ensures requests[id].phase == Done(Failed(Busy))
    {
      Do(id, Advance, others(3));
      Do(id, Advance, others(4));
    }

    /** The wait itself: how it ended. */
    method EndWait(id: Id, wait: Wait, others: nat -> seq<Event>) returns (end: Exit)
      requires Valid() && id in requests && requests[id].phase.Queued?
      modifies this
      ensures Valid() && id in requests && old(history) <= history
      ensures requests[id].phase == LeavingQueue(end)
      ensures end.WithSlot? <==> wait.GetsSlot? && old(slots) > 0
      ensures end.Abandoned? <==> wait.IsCancelled? && old(requests[id].cancelled)
    {
      if wait.GetsSlot? && slots > 0 {
        Do(id, Grant, others(3));
        end := WithSlot;
      } else if wait.IsCancelled? && requests[id].cancelled {
        Do(id, Abandon, others(3));
        end := Abandoned;
      } else {
        CountExpiry(id, others);
        end := Expired;
      }
    }

    /** The wait ran out, and that is counted. */
    method CountExpiry(id: Id, others: nat -> seq<Event>)
      requires Valid() && id in requests && requests[id].phase.Queued?
      modifies this
      ensures Valid() && id in requests && old(history) <= history
      ensures requests[id].phase == LeavingQueue(Expired)
    {
      Do(id, Expire, others(3));
      Do(id, Advance, others(4));
    }

    /** The bounded wait in the queue and the decrement in its `finally`. */
    method WaitAsync(id: Id, wait: Wait, others: nat -> seq<Event>) returns (refusal: Outcome)
      requires Valid() && id in requests && requests[id].phase.Queued?
      modifies this
      ensures Valid() && id in requests && old(history) <= history
      ensures requests[id].phase == Acquired || requests[id].phase == Done(refusal)
      ensures refusal == CancelledEarly || refusal == Failed(Busy)
      ensures wait.GetsSlot? && old(slots) > 0 ==> requests[id].phase == Acquired
    {
      var end := EndWait(id, wait, others);
      Do(id, Advance, others(5));
      refusal := if end.Abandoned? then CancelledEarly else Failed(Busy);
    }
  }
}
