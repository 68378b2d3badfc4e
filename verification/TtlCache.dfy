/** The double-checked, single-flight cache (src/Api/Services/InfoServices.cs): a value and its
    expiry read without the gate first and again under it, a factory called only under the gate.

    One event is one access: reading the value, the clock or the expiry, entering or leaving the
    gate, storing the value, storing the expiry. The clock moves between accesses, never back.
    Times are ticks; the expiry starts at tick 0, before any clock reading. */
module TtlCache {
  import opened Options

  type Id = nat

  /** A value the factory returned. `stored` is the clock when the factory's result was stored, and never
      changes. `stamp` is the clock reading from which its expiry is computed, made by a later access;
      until then it is `stored`. Both exist for the statements only. */
  datatype Entry<V> = Entry(value: V, stored: nat, stamp: nat)

  /** What a call gives back. `asked` is the clock reading of the call's own freshness check; for the
      caller that ran the factory, the clock when it did. */
  datatype Result<V> = Got(entry: Entry<V>, asked: nat) | Threw | Cancelled

  datatype Phase<V> =
    | CheckValue                            // reads the value without the gate
    | CheckClock
    | CheckExpiry(now: nat)
    | TakeValue(now: nat)                   // fresh: reads the value again to return it
    | AwaitGate
    | RecheckValue                          // the same under the gate
    | RecheckClock
    | RecheckExpiry(now: nat)
    | RetakeValue(now: nat)
    | Producing(since: nat)                 // the factory runs
    | Stamping(since: nat)                  // value stored, about to read the clock
    | Writing(since: nat, stamp: nat)       // about to store the expiry
    | Returning(since: nat)                 // reads the value to return it
    | Releasing(result: Result<V>)          // in the `finally`
    | Done(result: Result<V>)

  /** Completed and started factory calls, in order. */
  datatype Log = Started(at: nat) | Completed(at: nat) | Failed(at: nat)

  datatype State<V> = State(
    clock: nat,
    cached: Option<Entry<V>>,
    expires: nat,
    gate: Option<Id>,
    calls: map<Id, Phase<V>>,
    log: seq<Log>)

  datatype Event<V> =
    | Tick(elapsed: nat)
    | Call(id: Id)
    | Access(id: Id)                    // the next access, where only one can happen
    | Enter(id: Id)                     // the gate lets the caller in
    | GiveUp(id: Id)                    // the caller's token fires while it waits for the gate
    | FactoryReturns(id: Id, value: V)
    | FactoryThrows(id: Id)

  function Init<V>(start: nat): State<V> {
    State(start, None, 0, None, map[], [])
  }

  predicate Enabled<V>(s: State<V>, e: Event<V>) {
    match e
    case Tick(_) => true
    case Call(id) => id !in s.calls
    case Access(id) => id in s.calls && !s.calls[id].AwaitGate? && !s.calls[id].Producing? && !s.calls[id].Done?
                       && (s.calls[id].TakeValue? || s.calls[id].RetakeValue? || s.calls[id].Returning? ==> s.cached.Some?)
    case Enter(id) => id in s.calls && s.calls[id].AwaitGate? && s.gate.None?
    case GiveUp(id) => id in s.calls && s.calls[id].AwaitGate?
    case FactoryReturns(id, _) => id in s.calls && s.calls[id].Producing?
    case FactoryThrows(id) => id in s.calls && s.calls[id].Producing?
  }

  function Goto<V>(s: State<V>, id: Id, p: Phase<V>): State<V> {
    s.(calls := s.calls[id := p])
  }

  function Next<V>(ttl: nat, s: State<V>, e: Event<V>): State<V>
    requires Enabled(s, e)
  {
    match e
    case Tick(elapsed) => s.(clock := s.clock + elapsed)
    case Call(id) => Goto(s, id, CheckValue)
    case Enter(id) => Goto(s, id, RecheckValue).(gate := Some(id))
    case GiveUp(id) => Goto(s, id, Done(Cancelled))
    case FactoryReturns(id, v) => Goto(s, id, Stamping(s.calls[id].since)).(cached := Some(Entry(v, s.clock, s.clock)))
    case FactoryThrows(id) => Goto(s, id, Releasing(Threw)).(log := s.log + [Failed(s.clock)])
    case Access(id) => Accessed(ttl, s, id)
  }

  function StartFactory<V>(s: State<V>, id: Id): State<V> {
    Goto(s, id, Producing(s.clock)).(log := s.log + [Started(s.clock)])
  }

  function Accessed<V>(ttl: nat, s: State<V>, id: Id): State<V>
    requires Enabled(s, Access(id))
  {
    match s.calls[id]
    case CheckValue => Goto(s, id, if s.cached.Some? then CheckClock else AwaitGate)
    case CheckClock => Goto(s, id, CheckExpiry(s.clock))
    case CheckExpiry(now) => Goto(s, id, if now < s.expires then TakeValue(now) else AwaitGate)
    case TakeValue(now) => Goto(s, id, Done(Got(s.cached.value, now)))
    case RecheckValue => if s.cached.Some? then Goto(s, id, RecheckClock) else StartFactory(s, id)
    case RecheckClock => Goto(s, id, RecheckExpiry(s.clock))
    case RecheckExpiry(now) => if now < s.expires then Goto(s, id, RetakeValue(now)) else StartFactory(s, id)
    case RetakeValue(now) => Goto(s, id, Releasing(Got(s.cached.value, now)))
    case Stamping(since) =>
      Goto(s, id, Writing(since, s.clock)).(
        cached := if s.cached.Some? then Some(s.cached.value.(stamp := s.clock)) else None,
        log := s.log + [Completed(s.clock)])
    case Writing(since, stamp) => Goto(s, id, Returning(since)).(expires := stamp + ttl)
    case Returning(since) => Goto(s, id, Releasing(Got(s.cached.value, since)))
    case Releasing(result) => Goto(s, id, Done(result)).(gate := None)
  }

  function Execute<V>(ttl: nat, start: nat, run: seq<Event<V>>): Option<State<V>> {
    if run == [] then Some(Init(start))
    else
      match Execute(ttl, start, run[..|run| - 1])
      case None => None
      case Some(s) => if Enabled(s, run[|run| - 1]) then Some(Next(ttl, s, run[|run| - 1])) else None
  }

  // ----- the invariant

  predicate InGate<V>(p: Phase<V>) {
    !(p.CheckValue? || p.CheckClock? || p.CheckExpiry? || p.TakeValue? || p.AwaitGate? || p.Done?)
  }

  /** The gate's holder is the one call between entering it and releasing it. */
  ghost predicate GateInv<V>(s: State<V>) {
    && (s.gate.Some? ==> s.gate.value in s.calls)
    && (forall id :: id in s.calls ==> (InGate(s.calls[id]) <==> s.gate == Some(id)))
  }

  /** Where the holder stands; `AwaitGate` when there is none. */
  function Holder<V>(s: State<V>): Phase<V> {
    if s.gate.Some? && s.gate.value in s.calls then s.calls[s.gate.value] else AwaitGate
  }

  /** The expiry that the cached value has, or will have once the holder has stored it. */
  function DueAt<V>(ttl: nat, s: State<V>): nat {
    if Holder(s).Writing? then Holder(s).stamp + ttl else s.expires
  }

  ghost predicate CacheInv<V>(ttl: nat, s: State<V>) {
    && (s.cached.None? ==> s.expires == 0)
    && (s.cached.Some? ==>
          && s.cached.value.stored <= s.cached.value.stamp <= s.clock
          && s.expires <= s.cached.value.stamp + ttl
          && (!Holder(s).Stamping? ==> DueAt(ttl, s) == s.cached.value.stamp + ttl))
    && HolderInv(s)
  }

  /** The holder started its factory call no earlier than the expiry it found. */
  ghost predicate HolderInv<V>(s: State<V>) {
    match Holder(s)
    case Producing(since) => s.expires <= since <= s.clock
    case Stamping(since) => s.cached.Some? && s.expires <= since <= s.cached.value.stored
    case Writing(since, stamp) => s.cached.Some? && s.cached.value.stamp == stamp && s.expires <= since <= stamp <= s.clock
    case Returning(since) => s.cached.Some? && since <= s.cached.value.stamp
    case _ => true
  }

  /** Factory calls follow one another, and each starts at least `ttl` after every success before it. */
  ghost predicate LogInv<V>(ttl: nat, s: State<V>) {
    && Alternates(s)
    && (forall i :: 0 <= i < |s.log| && s.log[i].Completed? ==> s.cached.Some? && s.log[i].at + ttl <= DueAt(ttl, s))
    && Spaced(ttl, s.log)
  }

  ghost predicate Alternates<V>(s: State<V>) {
    && (forall i :: 0 <= i < |s.log| ==> (s.log[i].Started? <==> i % 2 == 0))
    && (Holder(s).Producing? || Holder(s).Stamping? <==> |s.log| % 2 == 1)
  }

  ghost predicate Spaced(ttl: nat, log: seq<Log>) {
    forall i, j :: 0 <= i < j < |log| && log[i].Completed? && !log[j].Failed? ==> log[i].at + ttl <= log[j].at
  }

  ghost predicate ResultInv<V>(ttl: nat, r: Result<V>) {
    r.Got? ==> r.entry.stored <= r.entry.stamp && r.asked < r.entry.stamp + ttl
  }

  /** What a call has read is still good enough: the value it will return was stamped less than `ttl`
      before the clock reading it made, or after it. */
  ghost predicate CallInv<V>(ttl: nat, s: State<V>, p: Phase<V>) {
    match p
    case CheckClock => s.cached.Some?
    case CheckExpiry(now) => s.cached.Some? && now <= s.clock
    case TakeValue(now) => s.cached.Some? && now < s.cached.value.stamp + ttl
    case RecheckClock => s.cached.Some?
    case RecheckExpiry(now) => s.cached.Some? && now <= s.clock
    case RetakeValue(now) => s.cached.Some? && now < s.cached.value.stamp + ttl
    case Releasing(r) => ResultInv(ttl, r)
    case Done(r) => ResultInv(ttl, r)
    case _ => true
  }

  ghost predicate Inv<V>(ttl: nat, s: State<V>) {
    && GateInv(s)
    && CacheInv(ttl, s)
    && LogInv(ttl, s)
    && (forall id :: id in s.calls ==> CallInv(ttl, s, s.calls[id]))
  }

  lemma GateStep<V>(ttl: nat, s: State<V>, e: Event<V>)
    requires GateInv(s) && Enabled(s, e)
    ensures GateInv(Next(ttl, s, e))
  {
  }

  lemma CacheStep<V>(ttl: nat, s: State<V>, e: Event<V>)
    requires Inv(ttl, s) && Enabled(s, e)
    ensures CacheInv(ttl, Next(ttl, s, e))
  {
    if e.Access? {
      CacheAccess(ttl, s, e.id);
    }
  }

  lemma CacheAccess<V>(ttl: nat, s: State<V>, id: Id)
    requires Inv(ttl, s) && Enabled(s, Access(id))
    ensures CacheInv(ttl, Accessed(ttl, s, id))
  {
    assert InGate(s.calls[id]) <==> s.gate == Some(id);
  }

  lemma LogStep<V>(ttl: nat, s: State<V>, e: Event<V>)
    requires Inv(ttl, s) && Enabled(s, e)
    ensures LogInv(ttl, Next(ttl, s, e))
  {
    if e.Access? {
      LogAccess(ttl, s, e.id);
    }
  }

  lemma LogAccess<V>(ttl: nat, s: State<V>, id: Id)
    requires Inv(ttl, s) && Enabled(s, Access(id))
    ensures LogInv(ttl, Accessed(ttl, s, id))
  {
    assert InGate(s.calls[id]) <==> s.gate == Some(id);
    AccessAlternates(ttl, s, id);
  }

  lemma AccessAlternates<V>(ttl: nat, s: State<V>, id: Id)
    requires GateInv(s) && Alternates(s) && Enabled(s, Access(id))
    ensures Alternates(Accessed(ttl, s, id))
  {
    assert InGate(s.calls[id]) <==> s.gate == Some(id);
  }

  lemma CallStep<V>(ttl: nat, s: State<V>, e: Event<V>, id: Id)
    requires 0 < ttl && Inv(ttl, s) && Enabled(s, e) && id in Next(ttl, s, e).calls
    ensures CallInv(ttl, Next(ttl, s, e), Next(ttl, s, e).calls[id])
  {
    if e.Access? && e.id != id {
      OtherCalls(ttl, s, e.id, id);
    }
  }

  /** An access of one call spoils nothing that another has read. */
  lemma OtherCalls<V>(ttl: nat, s: State<V>, accessing: Id, id: Id)
    requires 0 < ttl && Inv(ttl, s) && Enabled(s, Access(accessing)) && id in s.calls && id != accessing
    ensures CallInv(ttl, Accessed(ttl, s, accessing), s.calls[id])
  {
    assert CallInv(ttl, s, s.calls[id]);
  }

  lemma InvStep<V>(ttl: nat, s: State<V>, e: Event<V>)
    requires 0 < ttl && Inv(ttl, s) && Enabled(s, e)
    ensures Inv(ttl, Next(ttl, s, e))
  {
    GateStep(ttl, s, e);
    CacheStep(ttl, s, e);
    LogStep(ttl, s, e);
    forall id | id in Next(ttl, s, e).calls
      ensures CallInv(ttl, Next(ttl, s, e), Next(ttl, s, e).calls[id])
    {
      CallStep(ttl, s, e, id);
    }
  }

  /** Safety over all runs, for any number of callers, a factory that may throw and a clock that
      never goes back. */
  lemma {:induction false} SafeInEveryRun<V>(ttl: nat, start: nat, run: seq<Event<V>>)
    requires 0 < ttl && Execute(ttl, start, run).Some?
    ensures Inv(ttl, Execute(ttl, start, run).value)
  {
    if run != [] {
      SafeInEveryRun(ttl, start, run[..|run| - 1]);
      InvStep(ttl, Execute(ttl, start, run[..|run| - 1]).value, run[|run| - 1]);
    }
  }

  predicate InFactory<V>(p: Phase<V>) { p.Producing? }

  /** Single flight: no two calls run the factory at the same time. */
  lemma SingleFlight<V>(ttl: nat, start: nat, run: seq<Event<V>>, a: Id, b: Id)
    requires 0 < ttl && Execute(ttl, start, run).Some?
    requires a in Execute(ttl, start, run).value.calls && InFactory(Execute(ttl, start, run).value.calls[a])
    requires b in Execute(ttl, start, run).value.calls && InFactory(Execute(ttl, start, run).value.calls[b])
    ensures a == b
  {
    SafeInEveryRun(ttl, start, run);
  }

  ghost predicate Returned<V>(ttl: nat, start: nat, run: seq<Event<V>>, id: Id, entry: Entry<V>, asked: nat) {
    var end := Execute(ttl, start, run);
    end.Some? && id in end.value.calls && end.value.calls[id] == Done(Got(entry, asked))
  }

  /** What a call returns had been stamped less than `ttl` before the clock reading of the call's own
      freshness check, or after it. So it had been stored less than `ttl` and the delay of its stamp
      before that reading. */
  lemma FreshEnough<V>(ttl: nat, start: nat, run: seq<Event<V>>, id: Id, entry: Entry<V>, asked: nat)
    requires 0 < ttl && Returned(ttl, start, run, id, entry, asked)
    ensures entry.stored <= entry.stamp && asked < entry.stamp + ttl
    ensures asked < entry.stored + ttl + (entry.stamp - entry.stored)
  {
    SafeInEveryRun(ttl, start, run);
    assert CallInv(ttl, Execute(ttl, start, run).value, Execute(ttl, start, run).value.calls[id]);
  }

  /** Whether the n-th event of a run was the factory returning this value, at the clock the entry says. */
  ghost predicate ProducedAt<V>(ttl: nat, start: nat, run: seq<Event<V>>, n: nat, entry: Entry<V>) {
    && n < |run| && run[n].FactoryReturns? && run[n].value == entry.value
    && Execute(ttl, start, run[..n]).Some? && Execute(ttl, start, run[..n]).value.clock == entry.stored
  }

  ghost predicate Produced<V>(ttl: nat, start: nat, run: seq<Event<V>>, entry: Entry<V>) {
    exists n: nat :: ProducedAt(ttl, start, run, n, entry)
  }

  lemma StillProduced<V>(ttl: nat, start: nat, run: seq<Event<V>>, e: Event<V>, entry: Entry<V>, stamp: nat)
    requires Produced(ttl, start, run, entry)
    ensures Produced(ttl, start, run + [e], entry.(stamp := stamp))
  {
    var n: nat :| ProducedAt(ttl, start, run, n, entry);
    assert (run + [e])[..n] == run[..n];
    assert ProducedAt(ttl, start, run + [e], n, entry.(stamp := stamp));
  }

  /** The values a state holds: the cached one, and the results of calls. */
  predicate Holds<V(==)>(s: State<V>, entry: Entry<V>) {
    s.cached == Some(entry) || exists id :: id in s.calls && Carries(s.calls[id], entry)
  }

  predicate Carries<V(==)>(p: Phase<V>, entry: Entry<V>) {
    (p.Releasing? || p.Done?) && p.result.Got? && p.result.entry == entry
  }

  lemma HeldBefore<V>(ttl: nat, s: State<V>, e: Event<V>, entry: Entry<V>)
    requires Enabled(s, e) && Holds(Next(ttl, s, e), entry)
    ensures || Holds(s, entry)
            || (e.FactoryReturns? && entry == Entry(e.value, s.clock, s.clock))
            || (s.cached.Some? && entry == s.cached.value.(stamp := s.clock))
  {
    if Next(ttl, s, e).cached != Some(entry) {
      var id :| id in Next(ttl, s, e).calls && Carries(Next(ttl, s, e).calls[id], entry);
      CarriedBefore(ttl, s, e, id, entry);
    }
  }

  lemma CarriedBefore<V>(ttl: nat, s: State<V>, e: Event<V>, id: Id, entry: Entry<V>)
    requires Enabled(s, e) && id in Next(ttl, s, e).calls && Carries(Next(ttl, s, e).calls[id], entry)
    ensures s.cached == Some(entry) || (id in s.calls && Carries(s.calls[id], entry))
  {
  }

  /** `stored` is what it says: every value in the cache or in a result was returned by a factory call of
      the run, at that clock. */
  lemma {:induction false} NothingInvented<V>(ttl: nat, start: nat, run: seq<Event<V>>, entry: Entry<V>)
    requires Execute(ttl, start, run).Some? && Holds(Execute(ttl, start, run).value, entry)
    ensures Produced(ttl, start, run, entry)
  {
    var n := |run| - 1;
    var before, e := Execute(ttl, start, run[..n]).value, run[n];
    assert run == run[..n] + [e];
    HeldBefore(ttl, before, e, entry);
    if Holds(before, entry) {
      NothingInvented(ttl, start, run[..n], entry);
      StillProduced(ttl, start, run[..n], e, entry, entry.stamp);
    } else if e.FactoryReturns? && entry == Entry(e.value, before.clock, before.clock) {
      assert ProducedAt(ttl, start, run, n, entry);
    } else {
      NothingInvented(ttl, start, run[..n], before.cached.value);
      StillProduced(ttl, start, run[..n], e, before.cached.value, entry.stamp);
    }
  }

  // ----- how a call ends

  ghost predicate Has<V>(run: seq<Event<V>>, e: Event<V>) {
    exists n :: 0 <= n < |run| && run[n] == e
  }

  lemma HasSnoc<V>(run: seq<Event<V>>, last: Event<V>, e: Event<V>)
    ensures Has(run + [last], e) <==> Has(run, e) || last == e
  {
    var more := run + [last];
    if Has(run, e) {
      var n :| 0 <= n < |run| && run[n] == e;
      assert more[n] == e;
    }
    if last == e {
      assert more[|run|] == e;
    }
  }

  predicate EndsAs<V>(p: Phase<V>, threw: bool) {
    (p.Releasing? || p.Done?) && if threw then p.result.Threw? else p.result.Cancelled?
  }

  /** A call ends with an exception only if its own factory call threw, and cancelled only if it gave up
      waiting for the gate. */
  lemma {:induction false} EndsBadlyOnlyIf<V>(ttl: nat, start: nat, run: seq<Event<V>>, id: Id)
    requires Execute(ttl, start, run).Some? && id in Execute(ttl, start, run).value.calls
    ensures EndsAs(Execute(ttl, start, run).value.calls[id], true) ==> Has(run, FactoryThrows(id))
    ensures EndsAs(Execute(ttl, start, run).value.calls[id], false) ==> Has(run, GiveUp(id))
  {
    if run != [] {
      var front, e := run[..|run| - 1], run[|run| - 1];
      var s := Execute(ttl, start, front).value;
      assert run == front + [e];
      HasSnoc(front, e, FactoryThrows(id));
      HasSnoc(front, e, GiveUp(id));
      if id in s.calls {
        EndsBadlyOnlyIf(ttl, start, front, id);
      }
      EndsInOneEvent(ttl, s, e, id);
    }
  }

  lemma EndsInOneEvent<V>(ttl: nat, s: State<V>, e: Event<V>, id: Id)
    requires Enabled(s, e) && id in Next(ttl, s, e).calls
    ensures EndsAs(Next(ttl, s, e).calls[id], true) ==> e == FactoryThrows(id) || (id in s.calls && EndsAs(s.calls[id], true))
    ensures EndsAs(Next(ttl, s, e).calls[id], false) ==> e == GiveUp(id) || (id in s.calls && EndsAs(s.calls[id], false))
  {
  }

  /** On its way from its factory's result to its own: the value in the cache, and then in the result, is the
      one the factory returned. */
  predicate Carrying<V(==)>(s: State<V>, p: Phase<V>, v: V) {
    match p
    case Stamping(_) => s.cached.Some? && s.cached.value.value == v
    case Writing(_, _) => s.cached.Some? && s.cached.value.value == v
    case Returning(_) => s.cached.Some? && s.cached.value.value == v
    case Releasing(r) => r.Got? && r.entry.value == v
    case Done(r) => r.Got? && r.entry.value == v
    case _ => false
  }

  lemma StillCarrying<V>(ttl: nat, s: State<V>, e: Event<V>, id: Id, v: V)
    requires Enabled(s, e) && GateInv(s) && id in s.calls && Carrying(s, s.calls[id], v)
    ensures Carrying(Next(ttl, s, e), Next(ttl, s, e).calls[id], v)
  {
    assert InGate(s.calls[id]) <==> s.gate == Some(id);
    if e.Access? && e.id != id && InGate(s.calls[id]) {
      OthersDoNotStore(ttl, s, e.id, id);
    }
  }

  lemma OthersDoNotStore<V>(ttl: nat, s: State<V>, accessing: Id, id: Id)
    requires Enabled(s, Access(accessing)) && GateInv(s) && id in s.calls && InGate(s.calls[id]) && accessing != id
    ensures Accessed(ttl, s, accessing).cached == s.cached && Accessed(ttl, s, accessing).calls[id] == s.calls[id]
  {
    assert !InGate(s.calls[accessing]);
  }

  /** A call whose own factory call returned a value gives that value back: from then on it is on its way to
      it, whatever the others do. */
  lemma {:induction false} ReturnsWhatItProduced<V>(ttl: nat, start: nat, run: seq<Event<V>>, id: Id, v: V)
    requires 0 < ttl && Execute(ttl, start, run).Some? && Has(run, FactoryReturns(id, v))
    ensures var s := Execute(ttl, start, run).value; id in s.calls && Carrying(s, s.calls[id], v)
  {
    var front, e := run[..|run| - 1], run[|run| - 1];
    assert run == front + [e];
    HasSnoc(front, e, FactoryReturns(id, v));
    if e != FactoryReturns(id, v) {
      ReturnsWhatItProduced(ttl, start, front, id, v);
      SafeInEveryRun(ttl, start, front);
      StillCarrying(ttl, Execute(ttl, start, front).value, e, id, v);
    }
  }

  // ----- how fresh a value is, measured from its production

  /** Whether, over all runs, every returned value whose stamp came at most `delay` after it was stored
      had been stored less than `ttl` before the caller's own clock reading. */
  ghost predicate AlwaysFresh<V(!new)>(ttl: nat, start: nat, delay: nat) {
    forall run: seq<Event<V>>, id: Id, entry: Entry<V>, asked: nat ::
      Returned(ttl, start, run, id, entry, asked) && entry.stamp - entry.stored <= delay ==> asked < entry.stored + ttl
  }

  /** Strict freshness holds exactly when no time passes between storing a value and reading the clock for
      its expiry: with any delay there is a run that returns a value `ttl` old or older. */
  lemma FreshExactly<V(!new)>(ttl: nat, start: nat, delay: nat, v: V)
    requires 0 < ttl
    ensures AlwaysFresh<V>(ttl, start, delay) <==> delay == 0
  {
    if delay == 0 {
      forall run: seq<Event<V>>, id: Id, entry: Entry<V>, asked: nat |
        Returned(ttl, start, run, id, entry, asked) && entry.stamp - entry.stored <= delay
        ensures asked < entry.stored + ttl
      {
        FreshEnough(ttl, start, run, id, entry, asked);
      }
    } else {
      var run := ServedLate(ttl, start, delay, v);
      assert Returned(ttl, start, run, 1, Entry(v, start, start + delay), start + delay + ttl - 1);
    }
  }

  lemma Play<V>(ttl: nat, start: nat, run: seq<Event<V>>, s: State<V>, e: Event<V>)
      returns (run': seq<Event<V>>, s': State<V>)
    requires Execute(ttl, start, run) == Some(s) && Enabled(s, e)
    ensures run' == run + [e] && s' == Next(ttl, s, e) && Execute(ttl, start, run') == Some(s')
  {
    run', s' := run + [e], Next(ttl, s, e);
    assert run'[..|run|] == run;
  }

  /** A caller in front of an empty cache runs the factory. */
  lemma FirstProduces<V>(ttl: nat, start: nat) returns (run: seq<Event<V>>, s: State<V>)
    ensures Execute(ttl, start, run) == Some(s)
    ensures s == State(start, None, 0, Some(0), map[0 := Producing(start)], [Started(start)])
  {
    run, s := [], Init(start);
    run, s := Play(ttl, start, run, s, Call(0));
    run, s := Play(ttl, start, run, s, Access(0));
    run, s := Play(ttl, start, run, s, Enter(0));
    run, s := Play(ttl, start, run, s, Access(0));
  }

  /** The first caller's factory returns, and `delay` passes before the expiry is computed. */
  lemma StampedLate<V>(ttl: nat, start: nat, delay: nat, v: V) returns (run: seq<Event<V>>, s: State<V>)
    requires 0 < ttl
    ensures Execute(ttl, start, run) == Some(s)
    ensures s.clock == start + delay && s.expires == start + delay + ttl && s.calls.Keys == {0}
    ensures s.cached == Some(Entry(v, start, start + delay))
  {
    run, s := FirstProduces(ttl, start);
    run, s := Play(ttl, start, run, s, FactoryReturns(0, v));
    run, s := Play(ttl, start, run, s, Tick(delay));
    run, s := Play(ttl, start, run, s, Access(0));
    run, s := Play(ttl, start, run, s, Access(0));
  }

  /** A second caller comes just before that expiry and is served: the bound of `FreshEnough` is reached. */
  lemma ServedLate<V>(ttl: nat, start: nat, delay: nat, v: V) returns (run: seq<Event<V>>)
    requires 0 < ttl
    ensures Returned(ttl, start, run, 1, Entry(v, start, start + delay), start + delay + ttl - 1)
  {
    var s;
    run, s := AsksLate(ttl, start, delay, v);
    run, s := Play(ttl, start, run, s, Access(1));
    run, s := Play(ttl, start, run, s, Access(1));
    run, s := Play(ttl, start, run, s, Access(1));
  }

  lemma AsksLate<V>(ttl: nat, start: nat, delay: nat, v: V) returns (run: seq<Event<V>>, s: State<V>)
    requires 0 < ttl
    ensures Execute(ttl, start, run) == Some(s)
    ensures s.clock == start + delay + ttl - 1 && s.expires == start + delay + ttl
    ensures s.cached == Some(Entry(v, start, start + delay)) && 1 in s.calls && s.calls[1] == CheckClock
  {
    run, s := StampedLate(ttl, start, delay, v);
    run, s := Play(ttl, start, run, s, Tick(ttl - 1));
    run, s := Play(ttl, start, run, s, Call(1));
    run, s := Play(ttl, start, run, s, Access(1));
  }

  /** A factory call starts only once `ttl` has passed since every earlier success. */
  lemma FactoryIsThrottled<V>(ttl: nat, start: nat, run: seq<Event<V>>, i: nat, j: nat)
    requires 0 < ttl && Execute(ttl, start, run).Some?
    requires var log := Execute(ttl, start, run).value.log; i < j < |log| && log[i].Completed? && log[j].Started?
    ensures var log := Execute(ttl, start, run).value.log; log[i].at + ttl <= log[j].at
  {
    SafeInEveryRun(ttl, start, run);
  }

  ghost function Successes(log: seq<Log>): nat {
    if log == [] then 0 else Successes(log[..|log| - 1]) + (if log[|log| - 1].Completed? then 1 else 0)
  }

  ghost predicate SuccessesWithin(log: seq<Log>, start: nat, now: int) {
    forall i :: 0 <= i < |log| && log[i].Completed? ==> start <= log[i].at <= now
  }

  /** `k` successes that are at least `ttl` apart take `(k - 1) * ttl`. */
  lemma {:induction false} SpacedBound(ttl: nat, start: nat, log: seq<Log>, now: int)
    requires Spaced(ttl, log) && SuccessesWithin(log, start, now) && Successes(log) > 0
    ensures start + (Successes(log) - 1) * ttl <= now
  {
    var before, last := log[..|log| - 1], log[|log| - 1];
    var k := Successes(before);
    if last.Completed? {
      assert SuccessesWithin(before, start, last.at - ttl);
      if k > 0 {
        SpacedBound(ttl, start, before, last.at - ttl);
        OneMore(k, ttl);
      }
    } else {
      SpacedBound(ttl, start, before, now);
    }
  }

  lemma OneMore(k: nat, d: nat)
    ensures k * d == (k - 1) * d + d
  {
  }

  lemma {:induction false} LogTimes<V>(ttl: nat, start: nat, run: seq<Event<V>>)
    requires Execute(ttl, start, run).Some?
    ensures start <= Execute(ttl, start, run).value.clock
    ensures SuccessesWithin(Execute(ttl, start, run).value.log, start, Execute(ttl, start, run).value.clock)
  {
    if run != [] {
      LogTimes(ttl, start, run[..|run| - 1]);
    }
  }

  /** However many callers there are, the factory succeeds at most once at first and then once more
      for each whole `ttl` that passes. */
  lemma SuccessRate<V>(ttl: nat, start: nat, run: seq<Event<V>>)
    requires 0 < ttl && Execute(ttl, start, run).Some?
    ensures var s := Execute(ttl, start, run).value;
            Successes(s.log) > 0 ==> start + (Successes(s.log) - 1) * ttl <= s.clock
  {
    var s := Execute(ttl, start, run).value;
    SafeInEveryRun(ttl, start, run);
    LogTimes(ttl, start, run);
    if Successes(s.log) > 0 {
      SpacedBound(ttl, start, s.log, s.clock);
    }
  }

  /** The re-read of the value just before it is returned never finds it missing. */
  lemma ReturnsAValue<V>(ttl: nat, start: nat, run: seq<Event<V>>, id: Id)
    requires 0 < ttl && Execute(ttl, start, run).Some? && id in Execute(ttl, start, run).value.calls
    requires var p := Execute(ttl, start, run).value.calls[id]; p.TakeValue? || p.RetakeValue? || p.Returning?
    ensures Enabled(Execute(ttl, start, run).value, Access(id))
  {
    var s := Execute(ttl, start, run).value;
    SafeInEveryRun(ttl, start, run);
    assert CallInv(ttl, s, s.calls[id]);
  }

  // ----- one call alone

  /** So many accesses of one call with nothing in between, if they are possible. */
  function Accesses<V>(ttl: nat, s: State<V>, id: Id, n: nat): Option<State<V>>
    decreases n
  {
    if n == 0 then Some(s) else if !Enabled(s, Access(id)) then None else Accesses(ttl, Next(ttl, s, Access(id)), id, n - 1)
  }

  lemma OneAccess<V>(ttl: nat, s: State<V>, id: Id, n: nat)
    requires 0 < n && Enabled(s, Access(id))
    ensures Accesses(ttl, s, id, n) == Accesses(ttl, Accessed(ttl, s, id), id, n - 1)
  {
  }

  /** A call that finds a value that has not expired returns it in four accesses, whoever is in the gate, and
      changes nothing else. */
  lemma FreshIsServedAtOnce<V>(ttl: nat, s: State<V>, id: Id)
    requires id in s.calls && s.calls[id].CheckValue? && s.cached.Some? && s.clock < s.expires
    ensures Accesses(ttl, s, id, 4) == Some(s.(calls := s.calls[id := Done(Got(s.cached.value, s.clock))]))
  {
    var a := Goto(s, id, CheckClock);
    var b := Goto(s, id, CheckExpiry(s.clock));
    var d := Goto(s, id, TakeValue(s.clock));
    OneAccess(ttl, s, id, 4);
    assert Accessed(ttl, s, id) == a;
    OneAccess(ttl, a, id, 3);
    assert Accessed(ttl, a, id) == b;
    OneAccess(ttl, b, id, 2);
    assert Accessed(ttl, b, id) == d;
    OneAccess(ttl, d, id, 1);
    assert Accessed(ttl, d, id) == s.(calls := s.calls[id := Done(Got(s.cached.value, s.clock))]);
  }

  /** How many accesses it takes to see that there is no value or that it has expired. */
  function ToMiss<V>(s: State<V>): nat { if s.cached.None? then 1 else 3 }

  /** A call that finds none, or an expired one, goes to the gate; one that still finds that behind the gate
      starts the factory. */
  lemma MissStartsFactory<V>(ttl: nat, s: State<V>, id: Id)
    requires id in s.calls && (s.calls[id].CheckValue? || s.calls[id].RecheckValue?)
    requires s.cached.None? || s.expires <= s.clock
    ensures Accesses(ttl, s, id, ToMiss(s)) == Some(if s.calls[id].CheckValue? then Goto(s, id, AwaitGate) else StartFactory(s, id))
    ensures StartFactory(s, id) == s.(calls := s.calls[id := Producing(s.clock)], log := s.log + [Started(s.clock)])
  {
    var first := s.calls[id].CheckValue?;
    OneAccess(ttl, s, id, ToMiss(s));
    if s.cached.Some? {
      var a := Goto(s, id, if first then CheckClock else RecheckClock);
      var b := Goto(s, id, if first then CheckExpiry(s.clock) else RecheckExpiry(s.clock));
      assert Accessed(ttl, s, id) == a;
      OneAccess(ttl, a, id, 2);
      assert Accessed(ttl, a, id) == b;
      OneAccess(ttl, b, id, 1);
      var end := if first then Goto(s, id, AwaitGate) else StartFactory(s, id);
      assert Accessed(ttl, b, id) == end by {
        assert Accessed(ttl, b, id).calls == end.calls;
      }
    }
  }

  // ----- the object

  /** Accesses among which no other caller enters the gate. */
  ghost predicate KeepsOut<V>(others: seq<Event<V>>) {
    forall k :: 0 <= k < |others| ==> !others[k].Enter?
  }

  ghost predicate AllKeepOut<V>(others: nat -> seq<Event<V>>) {
    forall i :: KeepsOut(others(i))
  }

  lemma HasInLonger<V>(run: seq<Event<V>>, e: Event<V>, longer: seq<Event<V>>)
    requires run + [e] <= longer
    ensures Has(longer, e)
  {
    assert (run + [e])[|run|] == longer[|run|];
  }

  class Cache<V> {
    const ttl: nat
    const start: nat
    var clock: nat
    var value: Option<Entry<V>>
    var expires: nat
    var gate: Option<Id>
    var calls: map<Id, Phase<V>>
    ghost var log: seq<Log>
    ghost var history: seq<Event<V>>

    ghost function View(): State<V>
      reads this
    {
      State(clock, value, expires, gate, calls, log)
    }

    /** The object is in the state its history leads to. */
    ghost predicate Valid()
      reads this
    {
      0 < ttl && Execute(ttl, start, history) == Some(View())
    }

    constructor (ttl: nat, now: nat)
      requires 0 < ttl
      ensures Valid() && this.ttl == ttl && calls == map[] && history == []
    {
      this.ttl, start, clock := ttl, now, now;
      value, expires, gate, calls := None, 0, None, map[];
      log, history := [], [];
    }

    /** One access, in place. */
    method Perform(e: Event<V>)
      requires Valid() && Enabled(View(), e)
      modifies this
      ensures Valid() && history == old(history) + [e]
      ensures View() == Next(ttl, old(View()), e)
    {
      assert (history + [e])[..|history|] == history;
      history := history + [e];
      match e {
        case Tick(elapsed) => clock := clock + elapsed;
        case Call(id) => calls := calls[id := CheckValue];
        case Enter(id) => gate, calls := Some(id), calls[id := RecheckValue];
        case GiveUp(id) => calls := calls[id := Done(Cancelled)];
        case FactoryReturns(id, v) =>
          value := Some(Entry(v, clock, clock));
          calls := calls[id := Stamping(calls[id].since)];
        case FactoryThrows(id) =>
          calls := calls[id := Releasing(Threw)];
          log := log + [Failed(clock)];
        case Access(id) => AccessNext(id);
      }
    }

    method AccessNext(id: Id)
      requires Enabled(View(), Access(id))
      modifies this`value, this`expires, this`gate, this`calls, this`log
      ensures View() == Accessed(ttl, old(View()), id)
    {
      match calls[id] {
        case CheckValue => calls := calls[id := if value.Some? then CheckClock else AwaitGate];
        case CheckClock => calls := calls[id := CheckExpiry(clock)];
        case CheckExpiry(now) => calls := calls[id := if now < expires then TakeValue(now) else AwaitGate];
        case TakeValue(now) => calls := calls[id := Done(Got(value.value, now))];
        case RecheckValue =>
          if value.Some? {
            calls := calls[id := RecheckClock];
          } else {
            calls := calls[id := Producing(clock)];
            log := log + [Started(clock)];
          }
        case RecheckClock => calls := calls[id := RecheckExpiry(clock)];
        case RecheckExpiry(now) =>
          if now < expires {
            calls := calls[id := RetakeValue(now)];
          } else {
            calls := calls[id := Producing(clock)];
            log := log + [Started(clock)];
          }
        case RetakeValue(now) => calls := calls[id := Releasing(Got(value.value, now))];
        case Stamping(since) =>
          if value.Some? {
            value := Some(value.value.(stamp := clock));
          }
          calls := calls[id := Writing(since, clock)];
          log := log + [Completed(clock)];
        case Writing(since, stamp) =>
          expires := stamp + ttl;
          calls := calls[id := Returning(since)];
        case Returning(since) => calls := calls[id := Releasing(Got(value.value, since))];
        case Releasing(result) =>
          gate := None;
          calls := calls[id := Done(result)];
      }
    }

    /** What may happen between two accesses of one call: anything the others do, and time passing. */
    method Interleave(id: Id, others: seq<Event<V>>)
      requires Valid() && id in calls
      modifies this
      ensures Valid() && id in calls && calls[id] == old(calls[id]) && old(history) <= history
      ensures !calls[id].AwaitGate? && !calls[id].Producing? && !calls[id].Done? ==> Enabled(View(), Access(id))
      ensures KeepsOut(others) && old(gate).None? ==> gate.None?
    {
      for i := 0 to |others|
        invariant Valid() && id in calls && calls[id] == old(calls[id]) && old(history) <= history
        invariant KeepsOut(others) && old(gate).None? ==> gate.None?
      {
        var e := others[i];
        if (e.Tick? || e.id != id) && IsPossible(e) {
          Perform(e);
        }
      }
      if calls[id].TakeValue? || calls[id].RetakeValue? || calls[id].Returning? {
        ReturnsAValue(ttl, start, history, id);
      }
    }

    predicate IsPossible(e: Event<V>)
      reads this
      ensures IsPossible(e) <==> Enabled(View(), e)
    {
      Enabled(State(clock, value, expires, gate, calls, []), e)
    }

    /** One event of a call, then whatever the others do. */
    method Do(e: Event<V>, others: seq<Event<V>>)
      requires Valid() && !e.Tick? && Enabled(View(), e)
      modifies this
      ensures Valid() && e.id in calls && calls[e.id] == Next(ttl, old(View()), e).calls[e.id]
      ensures !calls[e.id].AwaitGate? && !calls[e.id].Producing? && !calls[e.id].Done? ==> Enabled(View(), Access(e.id))
      ensures old(history) + [e] <= history
      ensures KeepsOut(others) && !e.Enter? && old(gate).None? ==> gate.None?
    {
      Perform(e);
      Interleave(e.id, others);
    }

    /** The whole call. `produced` is what the factory would give: a value, or an exception. A caller
        that finds no fresh value waits for the gate while the others go on; its token fires after
        `patience` rounds of waiting. It ends with an exception only if the factory throws, and cancelled
        only if it has no patience or somebody is in the gate. */
    method GetAsync(id: Id, produced: Option<V>, patience: nat, others: nat -> seq<Event<V>>) returns (r: Result<V>)
      requires Valid() && id !in calls
      modifies this
      ensures Valid() && id in calls && calls[id] == Done(r)
      ensures r.Got? ==> ResultInv(ttl, r)
      ensures r.Threw? ==> produced.None?
      ensures r.Cancelled? ==> patience == 0 || old(gate).Some? || !AllKeepOut(others)
    {
      Do(Call(id), others(0));
      Check(id, others);
      if calls[id].TakeValue? {
        Do(Access(id), others(4));
      } else {
        var entered := AwaitTheGate(id, patience, others);
        if entered {
          UnderGate(id, produced, others);
        }
      }
      r := calls[id].result;
      if r.Got? {
        FreshEnough(ttl, start, history, id, r.entry, r.asked);
      }
    }

    /** The first check, without the gate. */
    method Check(id: Id, others: nat -> seq<Event<V>>)
      requires Valid() && id in calls && calls[id].CheckValue?
      modifies this
      ensures Valid() && id in calls && (calls[id].TakeValue? || calls[id].AwaitGate?)
      ensures calls[id].TakeValue? ==> Enabled(View(), Access(id))
      ensures AllKeepOut(others) && old(gate).None? ==> gate.None?
    {
      Do(Access(id), others(1));
      if calls[id].CheckClock? {
        Do(Access(id), others(2));
        Do(Access(id), others(3));
      }
    }

    /** The wait for the gate: it ends inside, or with the call cancelled. */
    method AwaitTheGate(id: Id, patience: nat, others: nat -> seq<Event<V>>) returns (entered: bool)
      requires Valid() && id in calls && calls[id].AwaitGate?
      modifies this
      ensures Valid() && id in calls && calls[id] == if entered then RecheckValue else Done(Cancelled)
      ensures patience > 0 && old(gate).None? ==> entered
    {
      var waited := 0;
      while gate.Some? && waited < patience
        invariant Valid() && id in calls && calls[id].AwaitGate? && waited <= patience
        invariant waited > 0 ==> old(gate).Some?
      {
        Interleave(id, others(20 + waited));
        waited := waited + 1;
      }
      entered := gate.None? && waited < patience;
      if entered {
        Do(Enter(id), others(4));
      } else {
        Do(GiveUp(id), others(4));
      }
    }

    /** The second check and, if it fails too, the factory; in either case the gate is released. */
    method UnderGate(id: Id, produced: Option<V>, others: nat -> seq<Event<V>>)
      requires Valid() && id in calls && calls[id].RecheckValue?
      modifies this
      ensures Valid() && id in calls && calls[id].Done? && !calls[id].result.Cancelled?
      ensures calls[id].result.Threw? ==> produced.None?
    {
      Recheck(id, others);
      if calls[id].Producing? {
        Produce(id, produced, others);
      }
      Do(Access(id), others(12));
    }

    method Recheck(id: Id, others: nat -> seq<Event<V>>)
      requires Valid() && id in calls && calls[id].RecheckValue?
      modifies this
      ensures Valid() && id in calls && (calls[id].Releasing? || calls[id].Producing?)
      ensures calls[id].Releasing? ==> Enabled(View(), Access(id)) && calls[id].result.Got?
    {
      Do(Access(id), others(5));
      if calls[id].RecheckClock? {
        RecheckTime(id, others);
      }
      if calls[id].RetakeValue? {
        Do(Access(id), others(8));
      }
    }

    /** The clock against the expiry, under the gate. */
    method RecheckTime(id: Id, others: nat -> seq<Event<V>>)
      requires Valid() && id in calls && calls[id].RecheckClock?
      modifies this
      ensures Valid() && id in calls && (calls[id].RetakeValue? || calls[id].Producing?)
      ensures calls[id].RetakeValue? ==> Enabled(View(), Access(id))
    {
      Do(Access(id), others(6));
      Do(Access(id), others(7));
    }

    method Produce(id: Id, produced: Option<V>, others: nat -> seq<Event<V>>)
      requires Valid() && id in calls && calls[id].Producing?
      modifies this
      ensures Valid() && id in calls && calls[id].Releasing? && Enabled(View(), Access(id))
      ensures match produced
              case Some(v) => calls[id].result.Got? && calls[id].result.entry.value == v
              case None => calls[id].result.Threw?
    {
      match produced {
        case Some(v) =>
          ghost var before := history;
          Do(FactoryReturns(id, v), others(8));
          Publish(id, others);
          HasInLonger(before, FactoryReturns(id, v), history);
          ReturnsWhatItProduced(ttl, start, history, id, v);
        case None =>
          Do(FactoryThrows(id), others(8));
      }
    }

    /** From the stored value to the one that is returned: the clock, the expiry, the value again. */
    method Publish(id: Id, others: nat -> seq<Event<V>>)
      requires Valid() && id in calls && calls[id].Stamping?
      modifies this
      ensures Valid() && id in calls && calls[id].Releasing? && Enabled(View(), Access(id))
      ensures old(history) <= history
    {
      Do(Access(id), others(9));
      Do(Access(id), others(10));
      Do(Access(id), others(11));
    }
  }
}
