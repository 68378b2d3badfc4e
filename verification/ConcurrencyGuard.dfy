/** The per-client concurrency cap (src/Api/RateLimiting/ConcurrencyGuard.cs): a shared dictionary of
    counts, an atomic add-or-update on the way in and on the way out, and a separate
    compare-and-remove that clears a count that has dropped to zero. */
module ConcurrencyGuard {
  import opened Options
  import opened Counting

  type Id = nat
  type Counts = map<string, int>

  /** The count of a key; an absent key counts zero. */
  function Stored(d: Counts, key: string): int {
    if key in d then d[key] else 0
  }

  // ----- the dictionary's atomic operations

  function Entered(d: Counts, key: string): Counts {
    d[key := if key in d then d[key] + 1 else 1]
  }

  function Decremented(d: Counts, key: string): Counts {
    d[key := if key in d then d[key] - 1 else 0]
  }

  /** `TryRemove` of a pair: removes the key only if it still has that value. */
  function Cleared(d: Counts, key: string, value: int): Counts {
    if key in d && d[key] == value then d - {key} else d
  }

  class ConcurrencyTracker {
    var inFlight: Counts

    constructor ()
      ensures inFlight == map[]
    {
      inFlight := map[];
    }

    method Enter(key: string) returns (count: int)
      modifies this
      ensures inFlight == Entered(old(inFlight), key) && count == Stored(inFlight, key)
    {
      if key in inFlight {
        inFlight := inFlight[key := inFlight[key] + 1];
      } else {
        inFlight := inFlight[key := 1];
      }
      count := inFlight[key];
    }

    /** The first access of `Leave`. */
    method Decrement(key: string) returns (remaining: int)
      modifies this
      ensures inFlight == Decremented(old(inFlight), key) && remaining == inFlight[key]
    {
      if key in inFlight {
        inFlight := inFlight[key := inFlight[key] - 1];
      } else {
        inFlight := inFlight[key := 0];
      }
      remaining := inFlight[key];
    }

    /** The second access of `Leave`. */
    method TryRemove(key: string, value: int)
      modifies this
      ensures inFlight == Cleared(old(inFlight), key, value)
    {
      if key in inFlight && inFlight[key] == value {
        inFlight := inFlight - {key};
      }
    }

    /** Both accesses of `Leave` with nothing in between: it undoes one `Enter`. */
    method Leave(key: string)
      modifies this
      ensures Stored(inFlight, key) == if old(Stored(inFlight, key)) > 1 then old(Stored(inFlight, key)) - 1 else 0
      ensures key in inFlight <==> old(Stored(inFlight, key)) > 1
      ensures forall other :: other != key ==> (other in inFlight <==> other in old(inFlight)) && Stored(inFlight, other) == old(Stored(inFlight, other))
    {
      var remaining := Decrement(key);
      if remaining <= 0 {
        TryRemove(key, remaining);
      }
    }
  }

  // ----- any number of requests

  datatype Phase =
    | Arriving
    | Serving                    // passed to the next handler
    | Refused                    // writing the 429 response
    | Removing(remaining: int)   // decremented, about to compare-and-remove
    | Done

  datatype Request = Request(key: string, phase: Phase)

  datatype State = State(counts: Counts, requests: map<Id, Request>)

  datatype Event = Arrive(id: Id, key: string) | Enter(id: Id) | Decrement(id: Id) | Remove(id: Id)

  const INITIAL := State(map[], map[])

  predicate Enabled(s: State, e: Event) {
    match e
    case Arrive(id, _) => id !in s.requests
    case Enter(id) => id in s.requests && s.requests[id].phase.Arriving?
    case Decrement(id) => id in s.requests && (s.requests[id].phase.Serving? || s.requests[id].phase.Refused?)
    case Remove(id) => id in s.requests && s.requests[id].phase.Removing?
  }

  function RequestAfter(max: nat, s: State, e: Event): Request
    requires Enabled(s, e)
  {
    match e
    case Arrive(id, key) => Request(key, Arriving)
    case Enter(id) =>
      var q := s.requests[id];
      q.(phase := if Entered(s.counts, q.key)[q.key] > max then Refused else Serving)
    case Decrement(id) =>
      var q := s.requests[id];
      var remaining := Decremented(s.counts, q.key)[q.key];
      q.(phase := if remaining <= 0 then Removing(remaining) else Done)
    case Remove(id) => s.requests[id].(phase := Done)
  }

  function CountsAfter(s: State, e: Event): Counts
    requires Enabled(s, e)
  {
    match e
    case Arrive(_, _) => s.counts
    case Enter(id) => Entered(s.counts, s.requests[id].key)
    case Decrement(id) => Decremented(s.counts, s.requests[id].key)
    case Remove(id) => Cleared(s.counts, s.requests[id].key, s.requests[id].phase.remaining)
  }

  function Next(max: nat, s: State, e: Event): State
    requires Enabled(s, e)
  {
    State(CountsAfter(s, e), s.requests[e.id := RequestAfter(max, s, e)])
  }

  function Execute(max: nat, run: seq<Event>): Option<State> {
    if run == [] then Some(INITIAL)
    else
      match Execute(max, run[..|run| - 1])
      case None => None
      case Some(s) => if Enabled(s, run[|run| - 1]) then Some(Next(max, s, run[|run| - 1])) else None
  }

  // ----- the invariant

  /** Entered and not yet decremented. */
  predicate IsIn(q: Request, key: string) {
    q.key == key && (q.phase.Serving? || q.phase.Refused?)
  }

  predicate IsServed(q: Request, key: string) {
    q.key == key && q.phase.Serving?
  }

  predicate IsRemoving(q: Request, key: string) {
    q.key == key && q.phase.Removing?
  }

  function Inside(key: string): Request -> bool { (q: Request) => IsIn(q, key) }

  function Served(key: string): Request -> bool { (q: Request) => IsServed(q, key) }

  function Removers(key: string): Request -> bool { (q: Request) => IsRemoving(q, key) }

  ghost predicate KeyInv(max: nat, s: State, key: string) {
    && Stored(s.counts, key) == Count(s.requests, Inside(key))
    && Count(s.requests, Served(key)) <= max
    && (key in s.counts && s.counts[key] == 0 ==> Count(s.requests, Removers(key)) > 0)
  }

  ghost predicate Inv(max: nat, s: State) {
    && (forall key :: KeyInv(max, s, key))
    && (forall id :: id in s.requests && s.requests[id].phase.Removing? ==> s.requests[id].phase.remaining == 0)
  }

  /** Events of one client leave every other client's count alone. */
  lemma OtherKeys(max: nat, s: State, e: Event, key: string)
    requires Enabled(s, e) && KeyInv(max, s, key) && key != RequestAfter(max, s, e).key
    ensures KeyInv(max, Next(max, s, e), key)
  {
    var q' := RequestAfter(max, s, e);
    CountUpdate(s.requests, e.id, q', Inside(key));
    CountUpdate(s.requests, e.id, q', Served(key));
    CountUpdate(s.requests, e.id, q', Removers(key));
  }

  lemma OwnKey(max: nat, s: State, e: Event)
    requires Enabled(s, e) && Inv(max, s)
    ensures KeyInv(max, Next(max, s, e), RequestAfter(max, s, e).key)
  {
    var q' := RequestAfter(max, s, e);
    var key := q'.key;
    assert KeyInv(max, s, key);
    CountUpdate(s.requests, e.id, q', Inside(key));
    CountUpdate(s.requests, e.id, q', Served(key));
    CountUpdate(s.requests, e.id, q', Removers(key));
    CountMonotone(s.requests, Served(key), Inside(key));
    if e.Decrement? {
      CountWitness(s.requests, e.id, Inside(key));
    }
  }

  lemma RemoversHoldZero(max: nat, s: State, e: Event)
    requires Enabled(s, e) && Inv(max, s)
    ensures RequestAfter(max, s, e).phase.Removing? ==> RequestAfter(max, s, e).phase.remaining == 0
  {
    if e.Decrement? {
      var key := s.requests[e.id].key;
      assert KeyInv(max, s, key);
      CountWitness(s.requests, e.id, Inside(key));
    }
  }

  lemma InvStep(max: nat, s: State, e: Event)
    requires Enabled(s, e) && Inv(max, s)
    ensures Inv(max, Next(max, s, e))
  {
    forall key
      ensures KeyInv(max, Next(max, s, e), key)
    {
      if key == RequestAfter(max, s, e).key {
        OwnKey(max, s, e);
      } else {
        OtherKeys(max, s, e, key);
      }
    }
    RemoversHoldZero(max, s, e);
  }

  /** Safety over all runs: the stored count is the number of requests entered and not yet
      decremented, no client has more than `max` requests in the next handler, every zero entry
      has a pending remover, and no remover ever looks for anything but zero. */
  lemma {:induction false} SafeInEveryRun(max: nat, run: seq<Event>)
    requires Execute(max, run).Some?
    ensures Inv(max, Execute(max, run).value)
  {
    if run == [] {
      forall key
        ensures KeyInv(max, INITIAL, key)
      {
        CountZero(INITIAL.requests, Inside(key));
        CountZero(INITIAL.requests, Served(key));
      }
    } else {
      SafeInEveryRun(max, run[..|run| - 1]);
      InvStep(max, Execute(max, run[..|run| - 1]).value, run[|run| - 1]);
    }
  }

  /** The compare-and-remove never drops a count that matters: it changes no client's stored count,
      however many requests entered since the remover decremented. */
  lemma RemovalLosesNothing(max: nat, run: seq<Event>, id: Id, key: string)
    requires Execute(max, run).Some? && Enabled(Execute(max, run).value, Remove(id))
    ensures var s := Execute(max, run).value;
            Stored(Next(max, s, Remove(id)).counts, key) == Stored(s.counts, key)
  {
    SafeInEveryRun(max, run);
  }

  /** The dictionary holds only keys of live requests, so it is empty once all have finished. */
  lemma OnlyLiveKeys(max: nat, run: seq<Event>, key: string)
    requires Execute(max, run).Some? && key in Execute(max, run).value.counts
    ensures exists id :: id in Execute(max, run).value.requests
              && Execute(max, run).value.requests[id].key == key && !Execute(max, run).value.requests[id].phase.Done?
  {
    var s := Execute(max, run).value;
    SafeInEveryRun(max, run);
    assert KeyInv(max, s, key);
    var id := CountPositive(s.requests, if s.counts[key] == 0 then Removers(key) else Inside(key));
  }

  lemma EmptyWhenFinished(max: nat, run: seq<Event>)
    requires Execute(max, run).Some?
    requires forall id :: id in Execute(max, run).value.requests ==> Execute(max, run).value.requests[id].phase.Done?
    ensures Execute(max, run).value.counts == map[]
  {
    var s := Execute(max, run).value;
    if key :| key in s.counts {
      OnlyLiveKeys(max, run, key);
    }
  }

  /** A request is let through exactly when fewer than `max` requests of its client are inside,
      counting those that are only being refused. */
  lemma AdmittedWhen(max: nat, run: seq<Event>, id: Id)
    requires Execute(max, run).Some? && Enabled(Execute(max, run).value, Enter(id))
    ensures var s := Execute(max, run).value;
            RequestAfter(max, s, Enter(id)).phase == if Count(s.requests, Inside(s.requests[id].key)) < max then Serving else Refused
  {
    var s := Execute(max, run).value;
    SafeInEveryRun(max, run);
    assert KeyInv(max, s, s.requests[id].key);
  }

  lemma Play(max: nat, run: seq<Event>, s: State, e: Event) returns (run': seq<Event>, s': State)
    requires Execute(max, run) == Some(s) && Enabled(s, e)
    ensures run' == run + [e] && s' == Next(max, s, e) && Execute(max, run') == Some(s')
  {
    run', s' := run + [e], Next(max, s, e);
    assert run'[..|run|] == run;
  }

  /** So the cap is not "at most `max` served, otherwise let through": a slow refusal keeps the place
      it took, and here a client with nothing being served is refused. */
  lemma RefusedWithNothingServed() returns (run: seq<Event>, id: Id)
    ensures Execute(1, run).Some? && Enabled(Execute(1, run).value, Enter(id))
    ensures var s := Execute(1, run).value;
            && Count(s.requests, Served(s.requests[id].key)) == 0
            && RequestAfter(1, s, Enter(id)).phase.Refused?
  {
    var s;
    run, s := [], INITIAL;
    run, s := Play(1, run, s, Arrive(0, "k"));
    run, s := Play(1, run, s, Arrive(1, "k"));
    run, s := Play(1, run, s, Enter(0));
    run, s := Play(1, run, s, Enter(1));
    run, s := Play(1, run, s, Decrement(0));
    run, s := Play(1, run, s, Arrive(2, "k"));
    id := 2;
    CountZero(s.requests, Served("k"));
  }

  // ----- the object

  /** Whether the request entered as the n-th event of a run, and was let through exactly if fewer than
      `max` requests of its client were inside at that point. */
  ghost predicate DecidedAt(max: nat, run: seq<Event>, n: nat, id: Id, key: string, served: bool) {
    && n < |run| && run[n] == Enter(id) && Execute(max, run[..n]).Some?
    && (served <==> Count(Execute(max, run[..n]).value.requests, Inside(key)) < max)
  }

  lemma StillDecided(max: nat, run: seq<Event>, longer: seq<Event>, n: nat, id: Id, key: string, served: bool)
    requires DecidedAt(max, run, n, id, key, served) && run <= longer
    ensures DecidedAt(max, longer, n, id, key, served)
  {
    assert longer[..n] == run[..n];
  }

  /** The guard in front of the next handler, shared by all requests. */
  class ConcurrencyGuard {
    const max: nat
    const tracker: ConcurrencyTracker
    var requests: map<Id, Request>
    ghost var history: seq<Event>

    ghost function View(): State
      reads this, tracker
    {
      State(tracker.inFlight, requests)
    }

    /** The object is in the state its history of events leads to. */
    ghost predicate Valid()
      reads this, tracker
    {
      Execute(max, history) == Some(View())
    }

    constructor (max: nat)
      ensures Valid() && fresh(tracker) && this.max == max && requests == map[] && history == []
    {
      this.max := max;
      tracker := new ConcurrencyTracker();
      requests, history := map[], [];
    }

    /** One access of one request, in place. */
    method Perform(e: Event)
      requires Valid() && Enabled(View(), e)
      modifies this, tracker
      ensures Valid() && history == old(history) + [e]
      ensures View() == Next(max, old(View()), e)
    {
      assert (history + [e])[..|history|] == history;
      history := history + [e];
      match e {
        case Arrive(id, key) =>
          requests := requests[id := Request(key, Arriving)];
        case Enter(id) =>
          var current := tracker.Enter(requests[id].key);
          requests := requests[id := requests[id].(phase := if current > max then Refused else Serving)];
        case Decrement(id) =>
          var remaining := tracker.Decrement(requests[id].key);
          requests := requests[id := requests[id].(phase := if remaining <= 0 then Removing(remaining) else Done)];
        case Remove(id) =>
          tracker.TryRemove(requests[id].key, requests[id].phase.remaining);
          requests := requests[id := requests[id].(phase := Done)];
      }
    }

    /** What the other requests may do between two accesses of one. */
    method Interleave(id: Id, others: seq<Event>)
      requires Valid() && id in requests
      modifies this, tracker
      ensures Valid() && id in requests && requests[id] == old(requests[id]) && old(history) <= history
    {
      for i := 0 to |others|
        invariant Valid() && id in requests && requests[id] == old(requests[id]) && old(history) <= history
      {
        var e := others[i];
        if e.id != id && Enabled(State(tracker.inFlight, requests), e) {
          Perform(e);
        }
      }
    }

    /** Arriving and entering: the decision. */
    method Admit(id: Id, key: string, others: nat -> seq<Event>) returns (served: bool)
      requires Valid() && id !in requests
      modifies this, tracker
      ensures Valid() && id in requests && requests[id] == Request(key, if served then Serving else Refused)
      ensures exists n :: DecidedAt(max, history, n, id, key, served)
    {
      Perform(Arrive(id, key));
      Interleave(id, others(0));
      AdmittedWhen(max, history, id);
      ghost var n := |history|;
      ghost var before := history;
      Perform(Enter(id));
      served := requests[id].phase.Serving?;
      assert history[..n] == before;
      assert DecidedAt(max, history, n, id, key, served);
    }

    /** One guarded request from its arrival to the end of the `finally`, with the other requests'
        accesses `others(i)` in between; `served` says that it was passed to the next handler. */
    method InvokeAsync(id: Id, key: string, others: nat -> seq<Event>) returns (served: bool)
      requires Valid() && id !in requests
      modifies this, tracker
      ensures Valid() && id in requests && requests[id] == Request(key, Done)
      ensures exists n :: DecidedAt(max, history, n, id, key, served)
    {
      served := Admit(id, key, others);
      ghost var n :| DecidedAt(max, history, n, id, key, served);
      ghost var run := history;
      Interleave(id, others(1));
      Perform(Decrement(id));
      Interleave(id, others(2));
      if requests[id].phase.Removing? {
        Perform(Remove(id));
      }
      StillDecided(max, run, history, n, id, key, served);
    }
  }
}
