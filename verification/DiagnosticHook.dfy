/** The hook that runs one diagnostic at a time (src/Web/src/hooks/useDiagnostic.ts). Runs are numbered
    in the order they start; the number stands for the identity of the run's abort controller. */
module DiagnosticHook {
  import opened Options

  datatype Outcome<R, E> = Result(result: R) | AbortError | Failure(error: E)

  /** The state the component shows. */
  datatype Shown<Q, R, E> =
    | Idle
    | Running(request: Q)
    | Success(request: Q, result: R)
    | Errored(request: Q, error: E)
    | Cancelled(request: Q)

  datatype Event<Q, R, E> =
    | Run(request: Q)
    | Settle(run: nat, outcome: Outcome<R, E>)
    | Cancel
    | Reset

  // ----- the simple definition, on the history of events

  function RunsIn<Q, R, E>(h: seq<Event<Q, R, E>>): nat {
    if h == [] then 0 else RunsIn(h[..|h| - 1]) + if h[|h| - 1].Run? then 1 else 0
  }

  /** A run, what it was asked for, and what happened since it started. */
  datatype Latest<Q, R, E> = Latest(run: nat, request: Q, since: seq<Event<Q, R, E>>)

  /** The latest run since the last reset. */
  function LatestRun<Q, R, E>(h: seq<Event<Q, R, E>>): Option<Latest<Q, R, E>> {
    if h == [] then None
    else
      var before, e := h[..|h| - 1], h[|h| - 1];
      if e.Run? then Some(Latest(RunsIn(before), e.request, []))
      else if e.Reset? then None
      else
        match LatestRun(before)
        case None => None
        case Some(l) => Some(l.(since := l.since + [e]))
  }

  predicate Settles<Q, R, E>(e: Event<Q, R, E>, run: nat) {
    e.Settle? && e.run == run
  }

  /** The first position where a run settles, or -1. */
  function FirstSettle<Q, R, E>(h: seq<Event<Q, R, E>>, run: nat): (j: int)
    ensures -1 <= j < |h|
    ensures j >= 0 ==> Settles(h[j], run)
    ensures forall k :: 0 <= k < (if j < 0 then |h| else j) ==> !Settles(h[k], run)
  {
    if h == [] then -1
    else
      var j := FirstSettle(h[..|h| - 1], run);
      if j >= 0 then j else if Settles(h[|h| - 1], run) then |h| - 1 else -1
  }

  predicate HasCancel<Q, R, E>(h: seq<Event<Q, R, E>>) {
    exists k :: 0 <= k < |h| && h[k].Cancel?
  }

  /** What a settlement shows, given whether its run was cancelled. */
  function SettledAs<Q, R, E>(request: Q, wasAborted: bool, outcome: Outcome<R, E>): Shown<Q, R, E> {
    match outcome
    case Result(r) => Success(request, r)
    case AbortError => Cancelled(request)
    case Failure(e) => if wasAborted then Cancelled(request) else Errored(request, e)
  }

  /** What a run shows, given what happened since it started. */
  function ShownBy<Q, R, E>(run: nat, request: Q, since: seq<Event<Q, R, E>>): Shown<Q, R, E> {
    var j := FirstSettle(since, run);
    if j < 0 then Running(request) else SettledAs(request, HasCancel(since[..j]), since[j].outcome)
  }

  /** The latest run since the last reset and that run's own settlement decide what is shown; earlier
      runs do not matter, however late they settle. */
  function Display<Q, R, E>(h: seq<Event<Q, R, E>>): Shown<Q, R, E> {
    match LatestRun(h)
    case None => Idle
    case Some(l) => ShownBy(l.run, l.request, l.since)
  }

  /** A run settles once, after it started. */
  predicate Possible<Q, R, E>(h: seq<Event<Q, R, E>>, e: Event<Q, R, E>) {
    e.Settle? ==> e.run < RunsIn(h) && FirstSettle(h, e.run) < 0
  }

  // ----- the hook

  /** The hook's fields as one value. */
  datatype Fields<Q, R, E> = Fields(
    controller: Option<nat>,   // the run of the current controller
    aborted: set<nat>,         // the runs whose controller was aborted
    shown: Shown<Q, R, E>,
    attempt: nat,
    requests: seq<Q>)          // what each run was asked for

  function Abort<Q, R, E>(f: Fields<Q, R, E>): set<nat> {
    if f.controller.Some? then f.aborted + {f.controller.value} else f.aborted
  }

  /** The fields agree with the history of events. */
  ghost predicate Agrees<Q, R, E>(h: seq<Event<Q, R, E>>, f: Fields<Q, R, E>) {
    && f.shown == Display(h)
    && f.attempt == |f.requests| == RunsIn(h)
    && (forall run :: run in f.aborted ==> run < f.attempt)
    && match LatestRun(h)
       case None => f.controller.None?
       case Some(l) =>
         && f.controller == Some(l.run)
         && l.run < |f.requests| && f.requests[l.run] == l.request
         && (l.run in f.aborted <==> HasCancel(l.since))
  }

  lemma StartAgrees<Q, R, E>(h: seq<Event<Q, R, E>>, f: Fields<Q, R, E>, request: Q)
    requires Agrees(h, f)
    ensures Agrees(h + [Run(request)],
                   Fields(Some(f.attempt), Abort(f), Running(request), f.attempt + 1, f.requests + [request]))
  {
    Snoc(h, Run(request));
  }

  lemma CancelAgrees<Q, R, E>(h: seq<Event<Q, R, E>>, f: Fields<Q, R, E>)
    requires Agrees(h, f)
    ensures Agrees(h + [Cancel], f.(aborted := Abort(f)))
  {
    Snoc(h, Cancel);
    CancelShows(h);
  }

  lemma ResetAgrees<Q, R, E>(h: seq<Event<Q, R, E>>, f: Fields<Q, R, E>)
    requires Agrees(h, f)
    ensures Agrees(h + [Reset], f.(controller := None, aborted := Abort(f), shown := Idle))
  {
    Snoc(h, Reset);
  }

  lemma SettleAgrees<Q, R, E>(h: seq<Event<Q, R, E>>, f: Fields<Q, R, E>, run: nat, outcome: Outcome<R, E>)
    requires Agrees(h, f) && Possible(h, Settle(run, outcome))
    ensures run < |f.requests|
    ensures Agrees(h + [Settle(run, outcome)],
                   if f.controller != Some(run) then f
                   else f.(shown := SettledAs(f.requests[run], run in f.aborted, outcome)))
  {
    Snoc(h, Settle(run, outcome));
    SettleShows(h, run, outcome);
    if LatestRun(h).Some? {
      SettleKeepsCancel(LatestRun(h).value.since, run, outcome);
    }
  }

  class Hook<Q, R, E> {
    var controller: Option<nat>
    var aborted: set<nat>
    var shown: Shown<Q, R, E>
    var attempt: nat
    var requests: seq<Q>
    ghost var history: seq<Event<Q, R, E>>

    ghost function View(): Fields<Q, R, E>
      reads this
    {
      Fields(controller, aborted, shown, attempt, requests)
    }

    ghost predicate Valid()
      reads this
    {
      Agrees(history, View())
    }

    constructor ()
      ensures Valid() && history == []
    {
      controller, aborted, shown, attempt, requests, history := None, {}, Idle, 0, [], [];
    }

    method Start(request: Q)
      requires Valid()
      modifies this
      ensures Valid() && history == old(history) + [Run(request)]
    {
      StartAgrees(history, View(), request);
      history := history + [Run(request)];
      if controller.Some? {
        aborted := aborted + {controller.value};
      }
      controller := Some(attempt);
      requests := requests + [request];
      attempt := attempt + 1;
      shown := Running(request);
    }

    /** The awaited call of a run returns or throws. */
    method Complete(run: nat, outcome: Outcome<R, E>)
      requires Valid() && Possible(history, Settle(run, outcome))
      modifies this
      ensures Valid() && history == old(history) + [Settle(run, outcome)]
    {
      SettleAgrees(history, View(), run, outcome);
      history := history + [Settle(run, outcome)];
      if controller != Some(run) {
        return;
      }
      var request := requests[run];
      match outcome {
        case Result(r) => shown := Success(request, r);
        case AbortError => shown := Cancelled(request);
        case Failure(e) => shown := if run in aborted then Cancelled(request) else Errored(request, e);
      }
    }

    method CancelRun()
      requires Valid()
      modifies this
      ensures Valid() && history == old(history) + [Cancel]
    {
      CancelAgrees(history, View());
      history := history + [Cancel];
      if controller.None? {
        return;
      }
      aborted := aborted + {controller.value};
    }

    method ResetState()
      requires Valid()
      modifies this
      ensures Valid() && history == old(history) + [Reset] && shown == Idle
    {
      ResetAgrees(history, View());
      history := history + [Reset];
      if controller.Some? {
        aborted := aborted + {controller.value};
      }
      controller := None;
      shown := Idle;
    }
  }

  // ----- one more event

  lemma Snoc<Q, R, E>(h: seq<Event<Q, R, E>>, e: Event<Q, R, E>)
    ensures RunsIn(h + [e]) == RunsIn(h) + if e.Run? then 1 else 0
    ensures LatestRun(h + [e]) ==
              if e.Run? then Some(Latest(RunsIn(h), e.request, []))
              else if e.Reset? || LatestRun(h).None? then None
              else Some(LatestRun(h).value.(since := LatestRun(h).value.since + [e]))
  {
    assert (h + [e])[..|h|] == h;
  }

  lemma CancelSnoc<Q, R, E>(since: seq<Event<Q, R, E>>, e: Event<Q, R, E>)
    ensures HasCancel(since + [e]) <==> HasCancel(since) || e.Cancel?
  {
    var more := since + [e];
    if HasCancel(since) {
      var k :| 0 <= k < |since| && since[k].Cancel?;
      assert more[k].Cancel?;
    }
    if e.Cancel? {
      assert more[|since|].Cancel?;
    }
  }

  lemma SettleSnoc<Q, R, E>(since: seq<Event<Q, R, E>>, e: Event<Q, R, E>, run: nat)
    ensures var j := FirstSettle(since, run);
            FirstSettle(since + [e], run) == if j >= 0 then j else if Settles(e, run) then |since| else -1
  {
    assert (since + [e])[..|since|] == since;
  }

  /** Events other than its own settlement do not change what a run shows. */
  lemma ShownSnoc<Q, R, E>(run: nat, request: Q, since: seq<Event<Q, R, E>>, e: Event<Q, R, E>)
    requires !Settles(e, run)
    ensures ShownBy(run, request, since + [e]) == ShownBy(run, request, since)
  {
    SettleSnoc(since, e, run);
    var j := FirstSettle(since, run);
    if j >= 0 {
      assert (since + [e])[..j] == since[..j];
    }
  }

  lemma CancelShows<Q, R, E>(h: seq<Event<Q, R, E>>)
    ensures Display(h + [Cancel]) == Display(h)
    ensures LatestRun(h).Some? ==> HasCancel(LatestRun(h).value.since + [Cancel])
  {
    Snoc(h, Cancel);
    if LatestRun(h).Some? {
      var l := LatestRun(h).value;
      ShownSnoc(l.run, l.request, l.since, Cancel);
      CancelSnoc(l.since, Cancel);
    }
  }

  lemma {:induction false} UnsettledSince<Q, R, E>(h: seq<Event<Q, R, E>>, run: nat)
    requires FirstSettle(h, run) < 0 && LatestRun(h).Some?
    ensures FirstSettle(LatestRun(h).value.since, run) < 0
  {
    var before, e := h[..|h| - 1], h[|h| - 1];
    if !e.Run? {
      UnsettledSince(before, run);
      SettleSnoc(LatestRun(before).value.since, e, run);
    }
  }

  /** Its own settlement decides what an unsettled run shows. */
  lemma OwnSettlement<Q, R, E>(run: nat, request: Q, since: seq<Event<Q, R, E>>, o: Outcome<R, E>)
    requires FirstSettle(since, run) < 0
    ensures ShownBy(run, request, since + [Settle(run, o)]) == SettledAs(request, HasCancel(since), o)
  {
    SettleSnoc(since, Settle(run, o), run);
    assert (since + [Settle(run, o)])[..|since|] == since;
  }

  lemma SettleKeepsCancel<Q, R, E>(since: seq<Event<Q, R, E>>, run: nat, o: Outcome<R, E>)
    ensures HasCancel(since + [Settle(run, o)]) == HasCancel(since)
  {
    CancelSnoc(since, Settle(run, o));
  }

  /** The settlement of the latest run is shown; any other is not. */
  lemma SettleShows<Q, R, E>(h: seq<Event<Q, R, E>>, run: nat, o: Outcome<R, E>)
    requires Possible(h, Settle(run, o))
    ensures Display(h + [Settle(run, o)]) ==
              if LatestRun(h).None? || LatestRun(h).value.run != run then Display(h)
              else SettledAs(LatestRun(h).value.request, HasCancel(LatestRun(h).value.since), o)
  {
    Snoc(h, Settle(run, o));
    if LatestRun(h).Some? {
      var l := LatestRun(h).value;
      if l.run == run {
        UnsettledSince(h, run);
        OwnSettlement(run, l.request, l.since, o);
      } else {
        ShownSnoc(l.run, l.request, l.since, Settle(run, o));
      }
    }
  }

  /** Whether a run was superseded by a later one or reset away, at any time after it had started. */
  predicate Stale<Q, R, E>(h: seq<Event<Q, R, E>>, run: nat) {
    exists k :: 0 <= k < |h| && run < RunsIn(h[..k]) && (h[k].Run? || h[k].Reset?)
  }

  lemma StaleSnoc<Q, R, E>(h: seq<Event<Q, R, E>>, e: Event<Q, R, E>, run: nat)
    ensures Stale(h + [e], run) <==> Stale(h, run) || (run < RunsIn(h) && (e.Run? || e.Reset?))
  {
    var more := h + [e];
    assert more[..|h|] == h && more[|h|] == e;
    if Stale(h, run) {
      var k :| 0 <= k < |h| && run < RunsIn(h[..k]) && (h[k].Run? || h[k].Reset?);
      assert more[..k] == h[..k] && more[k] == h[k];
    }
    if Stale(more, run) {
      var k :| 0 <= k < |more| && run < RunsIn(more[..k]) && (more[k].Run? || more[k].Reset?);
      assert k < |h| ==> more[..k] == h[..k] && more[k] == h[k];
    }
  }

  lemma {:induction false} RunsGrow<Q, R, E>(h: seq<Event<Q, R, E>>, k: nat)
    requires k <= |h|
    ensures RunsIn(h[..k]) <= RunsIn(h)
  {
    if k < |h| {
      RunsGrow(h[..|h| - 1], k);
      assert h[..|h| - 1][..k] == h[..k];
    } else {
      assert h[..k] == h;
    }
  }

  lemma NotStarted<Q, R, E>(h: seq<Event<Q, R, E>>, run: nat)
    requires RunsIn(h) <= run
    ensures !Stale(h, run)
  {
    forall k: nat | k < |h|
      ensures RunsIn(h[..k]) <= run
    {
      RunsGrow(h, k);
    }
  }

  /** What the hook looks at when a run settles, whether its own controller is still the current one, says
      exactly that. */
  lemma {:induction false} StaleMeans<Q, R, E>(h: seq<Event<Q, R, E>>, run: nat)
    requires run < RunsIn(h)
    ensures Stale(h, run) <==> LatestRun(h).None? || LatestRun(h).value.run != run
  {
    var before, e := h[..|h| - 1], h[|h| - 1];
    assert h == before + [e];
    StaleSnoc(before, e, run);
    Snoc(before, e);
    if run < RunsIn(before) {
      StaleMeans(before, run);
    } else {
      NotStarted(before, run);
    }
  }

  lemma {:induction false} StaleStays<Q, R, E>(h: seq<Event<Q, R, E>>, more: seq<Event<Q, R, E>>, run: nat)
    requires Stale(h, run)
    ensures Stale(h + more, run)
  {
    if more == [] {
      assert h + more == h;
    } else {
      var front, e := more[..|more| - 1], more[|more| - 1];
      StaleStays(h, front, run);
      StaleSnoc(h + front, e, run);
      assert h + more == h + front + [e];
    }
  }

  /** A run that was superseded or reset away never changes what is shown, whatever happens in between and
      whatever it settles with. */
  lemma StaleIsIgnored<Q, R, E>(h: seq<Event<Q, R, E>>, more: seq<Event<Q, R, E>>, run: nat, o: Outcome<R, E>)
    requires Stale(h, run) && Possible(h + more, Settle(run, o))
    ensures Display(h + more + [Settle(run, o)]) == Display(h + more)
  {
    StaleStays(h, more, run);
    StaleMeans(h + more, run);
    SettleShows(h + more, run, o);
  }

  /** After a reset nothing is shown until the next run starts, however many earlier runs settle. */
  lemma {:induction false} ResetLasts<Q, R, E>(h: seq<Event<Q, R, E>>, more: seq<Event<Q, R, E>>)
    requires forall k :: 0 <= k < |more| ==> !more[k].Run?
    ensures LatestRun(h + [Reset] + more).None? && Display(h + [Reset] + more) == Idle
  {
    var all := h + [Reset] + more;
    if more == [] {
      Snoc(h, Reset);
      assert all == h + [Reset];
    } else {
      var front, last := more[..|more| - 1], more[|more| - 1];
      ResetLasts(h, front);
      Snoc(h + [Reset] + front, last);
      assert all == h + [Reset] + front + [last];
    }
  }

  // ----- one run, from its start on

  /** Nothing that replaces the run or settles it. */
  predicate LeavesRun<Q, R, E>(since: seq<Event<Q, R, E>>, run: nat) {
    forall k :: 0 <= k < |since| ==> !since[k].Run? && !since[k].Reset? && !Settles(since[k], run)
  }

  lemma {:induction false} StillLatest<Q, R, E>(h: seq<Event<Q, R, E>>, request: Q, since: seq<Event<Q, R, E>>)
    requires forall k :: 0 <= k < |since| ==> !since[k].Run? && !since[k].Reset?
    ensures LatestRun(h + [Run(request)] + since) == Some(Latest(RunsIn(h), request, since))
  {
    var all := h + [Run(request)] + since;
    if since == [] {
      Snoc(h, Run(request));
      assert all == h + [Run(request)];
    } else {
      var front, last := since[..|since| - 1], since[|since| - 1];
      StillLatest(h, request, front);
      Snoc(h + [Run(request)] + front, last);
      assert all == h + [Run(request)] + front + [last] && since == front + [last];
    }
  }

  /** The story of a run, whatever was shown before it: it is shown as running until it settles, and then, until
      the next run or reset, as its result, as its error, or as cancelled; a failure as cancelled exactly if
      the run was cancelled before it. */
  lemma RunIsShown<Q, R, E>(h: seq<Event<Q, R, E>>, request: Q, since: seq<Event<Q, R, E>>, o: Outcome<R, E>,
                            later: seq<Event<Q, R, E>>)
    requires LeavesRun(since, RunsIn(h)) && forall k :: 0 <= k < |later| ==> !later[k].Run? && !later[k].Reset?
    ensures Display(h + [Run(request)] + since) == Running(request)
    ensures var cancelled := exists k :: 0 <= k < |since| && since[k] == Cancel;
            Display(h + [Run(request)] + (since + [Settle(RunsIn(h), o)] + later)) ==
              match o
              case Result(r) => Success(request, r)
              case AbortError => Cancelled(request)
              case Failure(e) => if cancelled then Cancelled(request) else Errored(request, e)
  {
    var run, all := RunsIn(h), since + [Settle(RunsIn(h), o)] + later;
    StillLatest(h, request, since);
    StillLatest(h, request, all);
    assert all[|since|] == Settle(run, o) && all[..|since|] == since;
    assert forall k :: 0 <= k < |since| ==> all[k] == since[k];
    assert FirstSettle(since, run) < 0;
    assert FirstSettle(all, run) == |since| by {
      assert Settles(all[|since|], run);
    }
    assert HasCancel(since) <==> exists k :: 0 <= k < |since| && since[k] == Cancel;
  }
}
