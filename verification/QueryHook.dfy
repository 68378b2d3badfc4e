/** The polling query hook (src/Web/src/hooks/useApiQuery.ts). Fetches are numbered in the order they
    start; the number stands for the identity of the fetch's abort controller. */
module QueryHook {
  import opened Options

  datatype Outcome<T, E> = Result(value: T) | AbortError | Failure(error: E)

  datatype Event<T, E> =
    | Run
    | Settle(run: nat, outcome: Outcome<T, E>, at: int)  // `at` is the clock of the update
    | Cleanup                                            // the effect is torn down

  /** What the hook returns to the component. */
  datatype View<T, E> = View(data: Option<T>, error: Option<E>, updatedAt: Option<int>, refreshing: bool)

  // ----- the simple definition, on the history of events

  function RunsIn<T, E>(h: seq<Event<T, E>>): nat {
    if h == [] then 0 else RunsIn(h[..|h| - 1]) + if h[|h| - 1].Run? then 1 else 0
  }

  /** Whether the latest fetch was torn down after it started. */
  predicate TornDown<T, E>(h: seq<Event<T, E>>) {
    h != [] && !h[|h| - 1].Run? && (h[|h| - 1].Cleanup? || TornDown(h[..|h| - 1]))
  }

  /** Whether a settlement counts: only the latest fetch's, and only if it was not torn down. */
  predicate Counts<T, E>(before: seq<Event<T, E>>, e: Event<T, E>) {
    e.Settle? && e.run + 1 == RunsIn(before) && !TornDown(before)
  }

  /** The data is the value of the last fetch that succeeded and counted; a failure that counted leaves
      the data and shows the error; the hook is refreshing until the latest fetch settles. */
  function Display<T, E>(start: View<T, E>, h: seq<Event<T, E>>): View<T, E> {
    if h == [] then start
    else
      var before, e := h[..|h| - 1], h[|h| - 1];
      var v := Display(start, before);
      match e
      case Run => v.(refreshing := true)
      case Cleanup => v
      case Settle(run, outcome, at) =>
        var w := v.(refreshing := v.refreshing && run + 1 != RunsIn(before));
        if !Counts(before, e) then w
        else
          match outcome
          case Result(x) => w.(data := Some(x), error := None, updatedAt := Some(at))
          case Failure(x) => w.(error := Some(x))
          case AbortError => w
  }

  predicate Possible<T, E>(h: seq<Event<T, E>>, e: Event<T, E>) {
    e.Settle? ==> e.run < RunsIn(h) && forall k :: 0 <= k < |h| ==> !(h[k].Settle? && h[k].run == e.run)
  }

  /** Every event was possible when it happened. */
  predicate Legal<T, E>(h: seq<Event<T, E>>) {
    forall k :: 0 <= k < |h| ==> Possible(h[..k], h[k])
  }

  class Hook<T, E> {
    var controller: Option<nat>
    var aborted: set<nat>
    var started: nat
    var data: Option<T>
    var error: Option<E>
    var updatedAt: Option<int>
    var refreshing: bool
    ghost const initial: View<T, E>
    ghost var history: seq<Event<T, E>>

    ghost predicate Valid()
      reads this
    {
      && View(data, error, updatedAt, refreshing) == Display(initial, history)
      && started == RunsIn(history)
      && controller == (if started == 0 then None else Some(started - 1))
      && (forall run :: run in aborted ==> run < started)
      && (forall run :: 0 <= run < started ==> (run in aborted <==> run + 1 < started || TornDown(history)))
    }

    /** `loaded` is the result the server-side render passed in, if any. */
    constructor (loaded: Option<T>, failed: Option<E>, at: Option<int>)
      ensures Valid() && history == [] && initial == View(loaded, failed, at, false)
    {
      controller, aborted, started := None, {}, 0;
      data, error, updatedAt, refreshing := loaded, failed, at, false;
      initial, history := View(loaded, failed, at, false), [];
    }

    method Start()
      requires Valid()
      modifies this
      ensures Valid() && history == old(history) + [Run]
    {
      Snoc(initial, history, Run);
      history := history + [Run];
      if controller.Some? {
        aborted := aborted + {controller.value};
      }
      controller := Some(started);
      started := started + 1;
      refreshing := true;
    }

    /** The awaited fetch of a run returns or throws. */
    method Complete(run: nat, outcome: Outcome<T, E>, at: int)
      requires Valid() && Possible(history, Settle(run, outcome, at))
      modifies this
      ensures Valid() && history == old(history) + [Settle(run, outcome, at)]
    {
      Snoc(initial, history, Settle(run, outcome, at));
      history := history + [Settle(run, outcome, at)];
      if run !in aborted {
        match outcome {
          case Result(x) => data, error, updatedAt := Some(x), None, Some(at);
          case Failure(x) => error := Some(x);
          case AbortError =>
        }
      }
      if controller == Some(run) {
        refreshing := false;
      }
    }

    method TearDown()
      requires Valid()
      modifies this
      ensures Valid() && history == old(history) + [Cleanup]
    {
      Snoc(initial, history, Cleanup);
      history := history + [Cleanup];
      if controller.Some? {
        aborted := aborted + {controller.value};
      }
    }
  }

  lemma Snoc<T, E>(start: View<T, E>, h: seq<Event<T, E>>, e: Event<T, E>)
    ensures (h + [e])[..|h|] == h && (h + [e])[|h|] == e
    ensures RunsIn(h + [e]) == RunsIn(h) + if e.Run? then 1 else 0
    ensures TornDown(h + [e]) == (!e.Run? && (e.Cleanup? || TornDown(h)))
  {
    assert (h + [e])[..|h|] == h;
  }

  // ----- what is displayed only moves forward

  lemma {:induction false} RunsGrow<T, E>(h: seq<Event<T, E>>, k: nat)
    requires k <= |h|
    ensures RunsIn(h[..k]) <= RunsIn(h)
  {
    if k < |h| {
      RunsGrow(h[..|h| - 1], k);
      assert h[..|h| - 1][..k] == h[..k];
    } else {
      assert h[..k] == h;
    }
  }

  /** The fetches whose results are displayed one after the other started one after the other: a fetch
      that was superseded or torn down never changes the data. */
  lemma CommitsMoveForward<T, E>(h: seq<Event<T, E>>, j: nat, k: nat)
    requires Legal(h) && j < k < |h| && Counts(h[..j], h[j]) && Counts(h[..k], h[k])
    ensures h[j].run < h[k].run
  {
    RunsGrow(h[..k], j);
    assert h[..k][..j] == h[..j];
    assert Possible(h[..k], h[k]);
    assert h[..k][j] == h[j];
  }

  /** Whether a fetch was superseded by a later one or torn down, at any time after it had started. */
  predicate Stale<T, E>(h: seq<Event<T, E>>, run: nat) {
    exists k :: 0 <= k < |h| && run < RunsIn(h[..k]) && (h[k].Run? || h[k].Cleanup?)
  }

  lemma StaleSnoc<T, E>(h: seq<Event<T, E>>, e: Event<T, E>, run: nat)
    ensures Stale(h + [e], run) <==> Stale(h, run) || (run < RunsIn(h) && (e.Run? || e.Cleanup?))
  {
    var more := h + [e];
    assert more[..|h|] == h && more[|h|] == e;
    if Stale(h, run) {
      var k :| 0 <= k < |h| && run < RunsIn(h[..k]) && (h[k].Run? || h[k].Cleanup?);
      assert more[..k] == h[..k] && more[k] == h[k];
    }
    if Stale(more, run) {
      var k :| 0 <= k < |more| && run < RunsIn(more[..k]) && (more[k].Run? || more[k].Cleanup?);
      assert k < |h| ==> more[..k] == h[..k] && more[k] == h[k];
    }
  }

  /** What the hook looks at when a fetch settles, its own abort signal, says exactly that. */
  lemma {:induction false} StaleMeans<T, E>(h: seq<Event<T, E>>, run: nat)
    requires run < RunsIn(h)
    ensures Stale(h, run) <==> run + 1 < RunsIn(h) || TornDown(h)
  {
    var before, e := h[..|h| - 1], h[|h| - 1];
    assert h == before + [e];
    StaleSnoc(before, e, run);
    if run < RunsIn(before) {
      StaleMeans(before, run);
    } else {
      NotStarted(before, run);
    }
  }

  lemma NotStarted<T, E>(h: seq<Event<T, E>>, run: nat)
    requires RunsIn(h) <= run
    ensures !Stale(h, run)
  {
    forall k: nat | k < |h|
      ensures RunsIn(h[..k]) <= run
    {
      RunsGrow(h, k);
    }
  }

  /** A settlement changes data, error or time only if its fetch was not superseded or torn down, however
      long ago; a failure then leaves the data, and an abort everything. */
  lemma SettlementShows<T, E>(start: View<T, E>, h: seq<Event<T, E>>, run: nat, outcome: Outcome<T, E>, at: int)
    requires run < RunsIn(h)
    ensures var v, w := Display(start, h), Display(start, h + [Settle(run, outcome, at)]);
            w.(refreshing := v.refreshing) ==
              if Stale(h, run) || outcome.AbortError? then v
              else if outcome.Failure? then v.(error := Some(outcome.error))
              else v.(data := Some(outcome.value), error := None, updatedAt := Some(at))
  {
    StaleMeans(h, run);
    assert (h + [Settle(run, outcome, at)])[..|h|] == h;
  }

  /** A fetch that was superseded or torn down never changes data, error or time, whatever happens in
      between and whatever it settles with. */
  lemma StaleIsIgnored<T, E>(start: View<T, E>, h: seq<Event<T, E>>, more: seq<Event<T, E>>, run: nat,
                             outcome: Outcome<T, E>, at: int)
    requires Stale(h, run)
    ensures var all := h + more;
            Display(start, all + [Settle(run, outcome, at)]).(refreshing := false) == Display(start, all).(refreshing := false)
  {
    StaleStays(h, more, run);
    StaleHasStarted(h + more, run);
    SettlementShows(start, h + more, run, outcome, at);
  }

  lemma {:induction false} StaleStays<T, E>(h: seq<Event<T, E>>, more: seq<Event<T, E>>, run: nat)
    requires Stale(h, run)
    ensures Stale(h + more, run)
  {
    if more == [] {
      assert h + more == h;
    } else {
      var front, e := more[..|more| - 1], more[|more| - 1];
      StaleStays(h, front, run);
      StaleSnoc(h + front, e, run);
      assert h + more == h + front + [e];
    }
  }

  lemma StaleHasStarted<T, E>(h: seq<Event<T, E>>, run: nat)
    requires Stale(h, run)
    ensures run < RunsIn(h)
  {
    if RunsIn(h) <= run {
      NotStarted(h, run);
    }
  }

  /** The position of the settlement whose value is displayed, or -1 for the initial data. */
  function Source<T, E>(h: seq<Event<T, E>>): (i: int)
    ensures -1 <= i < |h|
  {
    if h == [] then -1
    else
      var before, e := h[..|h| - 1], h[|h| - 1];
      if Counts(before, e) && e.outcome.Result? then |h| - 1 else Source(before)
  }

  /** The displayed data is the value of the last success that counted, or the initial data. */
  lemma {:induction false} DataComesFrom<T, E>(start: View<T, E>, h: seq<Event<T, E>>)
    ensures var i, v := Source(h), Display(start, h);
            if i < 0 then v.data == start.data && v.updatedAt == start.updatedAt
            else
              && Counts(h[..i], h[i]) && h[i].outcome.Result?
              && v.data == Some(h[i].outcome.value) && v.updatedAt == Some(h[i].at)
              && forall k :: i < k < |h| && Counts(h[..k], h[k]) ==> !h[k].outcome.Result?
  {
    if h != [] {
      var before := h[..|h| - 1];
      DataComesFrom(start, before);
      assert forall k :: 0 <= k <= |before| ==> before[..k] == h[..k];
    }
  }

  predicate Settled<T, E>(h: seq<Event<T, E>>, run: nat) {
    exists k :: 0 <= k < |h| && h[k].Settle? && h[k].run == run
  }

  /** The hook shows that it is refreshing exactly while the latest fetch has not settled. */
  lemma {:induction false} RefreshingMeans<T, E>(start: View<T, E>, h: seq<Event<T, E>>)
    requires Legal(h) && !start.refreshing
    ensures Display(start, h).refreshing <==> Pending(h)
  {
    if h != [] {
      var before, e := h[..|h| - 1], h[|h| - 1];
      LegalFront(h);
      RefreshingMeans(start, before);
      OnlyStartedSettle(before);
      PendingSnoc(before, e);
      assert h == before + [e];
    }
  }

  /** The latest fetch has not settled. */
  predicate Pending<T, E>(h: seq<Event<T, E>>) { RunsIn(h) > 0 && !Settled(h, RunsIn(h) - 1) }

  lemma LegalFront<T, E>(h: seq<Event<T, E>>)
    requires Legal(h) && h != []
    ensures Legal(h[..|h| - 1]) && Possible(h[..|h| - 1], h[|h| - 1])
  {
    assert forall k :: 0 <= k < |h| - 1 ==> h[..|h| - 1][..k] == h[..k];
  }

  lemma {:induction false} OnlyStartedSettle<T, E>(h: seq<Event<T, E>>)
    requires Legal(h)
    ensures forall run :: run >= RunsIn(h) ==> !Settled(h, run)
  {
    if h != [] {
      LegalFront(h);
      OnlyStartedSettle(h[..|h| - 1]);
      SettledSnoc(h[..|h| - 1], h[|h| - 1]);
      assert h == h[..|h| - 1] + [h[|h| - 1]];
    }
  }

  lemma PendingSnoc<T, E>(h: seq<Event<T, E>>, e: Event<T, E>)
    requires forall run :: run >= RunsIn(h) ==> !Settled(h, run)
    ensures Pending(h + [e]) <==> e.Run? || (Pending(h) && !(e.Settle? && e.run + 1 == RunsIn(h)))
  {
    SettledSnoc(h, e);
    assert (h + [e])[..|h|] == h;
  }

  lemma SettledSnoc<T, E>(h: seq<Event<T, E>>, e: Event<T, E>)
    ensures forall run :: Settled(h + [e], run) <==> Settled(h, run) || (e.Settle? && e.run == run)
  {
    forall run: nat
      ensures Settled(h + [e], run) <==> Settled(h, run) || (e.Settle? && e.run == run)
    {
      if k :| 0 <= k < |h| && h[k].Settle? && h[k].run == run {
        assert (h + [e])[k].Settle?;
      }
      assert (h + [e])[|h|] == e;
    }
  }
}
