# Looking glass: a verified model

The looking glass lets visitors run ping, traceroute and mtr from a server. This project models, in
Dafny, the parts of it whose correctness depends on interleavings, on whole languages of input or on
whole histories, and proves what they promise.

- **Admission.** The executor of diagnostics (`Executor.dfy`), the cap on concurrent requests of one
  client (`ConcurrencyGuard.dfy`) and the single-flight cache (`TtlCache.dfy`) are state machines. One
  step is one atomic access (a semaphore operation, an interlocked operation, a dictionary operation, a
  field access, a metric update) of one of arbitrarily many requests. Safety is proved over all runs.
  Beside each machine stands the object with the fields of the original, whose methods make the same
  accesses in place, with arbitrary accesses of other requests between any two of their own.
  `Counting.dfy` has the lemmas about counting requests.
- **Addresses and names.** `Addresses.dfy` has the web client's address parsers and `Rfc3986.dfy` the
  grammar they equal. `IpBlocklist.dfy` has the server's blocklist and the client's block tests, compared
  over all addresses. `Destinations.dfy` has both sides' validation of what a visitor types, compared over
  all strings, and `DestinationInputs.dfy` says exactly which inputs either side accepts and the server
  refuses. `Text.dfy` and `Numerals.dfy` have the lemmas about strings and numerals.
- **Bounded logs.** `ActivityLog.dfy` and `ConnectivityMonitor.dfy` show that pruning and capping step by
  step agree with filtering the whole history, and what downsampling keeps.
- **Text.** `TracerouteService.dfy`, `TargetResolver.dfy`, `TextRenderer.dfy`, `TracerouteParser.dfy`,
  `TracerouteLines.dfy` and `TracerouteRoundTrip.dfy` cover redaction, the guard on targets, the technical
  text, what a line of it means and reading it back; `ReverseName.dfy` the names of reverse lookups;
  `ProcessOutput.dfy` the capped copy of a process's output.
- **Client state.** `DiagnosticHook.dfy` and `QueryHook.dfy` show that stale completions are ignored in any
  order of events.

`dafny verify dfyconfig.toml` checks everything. Members that only compute something (the specification
functions) have no row of their own below: the lemmas about them do.

## Where a natural claim is false

Seven claims one might expect are false of the code. Each has a lemma with a concrete witness and, beside
it, the exact condition under which it holds.

- "A diagnostic is refused for a full queue only if that many requests wait": a rejected request that has
  not yet decremented the counter takes a place (`Executor.RefusedAlthoughQueueIsEmpty`). Exactly when it
  is refused: `Executor.RejectedWhen`.
- "A client is refused only if that many of its requests are being served": a refusal that is still being
  written takes a place (`ConcurrencyGuard.RefusedWithNothingServed`). Exactly when it is let through:
  `ConcurrencyGuard.AdmittedWhen`.
- "A cached value is returned only within its time to live": the expiry is computed from a clock reading
  made after the value was stored, so the time between the two comes on top (`TtlCache.ServedLate`).
  Exactly when: `TtlCache.FreshExactly`. With the delay added it always holds: `TtlCache.FreshEnough`.
- "The server accepts every hostname form the web client accepts, with underscores allowed": not with an
  underscore in the last label (`Destinations.UnderscoreCounterexample`). Exactly when:
  `Destinations.UnderscoreAgreement`.
- "Reading a rendered trace back keeps the responded flag": not for a redacted or named hop without a time
  (`TracerouteRoundTrip.RedactedAnswerLost`). Exactly when: `TracerouteRoundTrip.AnswerSurvives`.
- "The capped copy has at most the limit in bytes": the cut is by characters
  (`ProcessOutput.BytesExceedLimit`). Exactly when: `ProcessOutput.WithinLimit`. How far it can go beyond:
  `ProcessOutput.CopyBytes`, at most 8192 bytes with the buffer of 4096 characters.
- "The capped copy does not depend on how the output arrives": it can, at every limit
  (`ProcessOutput.ChunkingMattersAt`). Exactly when it does not, for a text at a limit:
  `ProcessOutput.ChunkingIsIrrelevantAt`. Exactly for which texts it does at no limit:
  `ProcessOutput.ChunkingIsIrrelevant`.

## Assumptions

- A semaphore is its count. A free slot may go to any waiter or to a newcomer; the order in which the
  runtime serves waiters is a special case. A wait of zero length does not wait.
- A wait in the queue may expire, and a token may fire, at any moment; so the lengths of the timeouts do
  not appear. The several metrics one exit updates are updated in one step.
- Clocks are integers of ticks and never go back. Reading the cache's expiry is atomic; its factory
  returns no null and its time to live is positive.
- Numbers are formatted in the invariant culture: `InvariantGlobalization` (Directory.Build.props, line 10)
  makes it the ambient one of every project. What another separator of decimals would do is
  `TracerouteRoundTrip.NumberReadsBack`.
- Characters are ASCII as far as white space and letter case go. A null input is like a blank one.
- The server reads IPv6 text with the runtime's parser, which is not part of this model: it is a parameter.
  The statements about IPv6 text hold for every parser that, on hexadecimal digits, colons and dots,
  follows the grammar of section 3.2.2 of RFC 3986 (`Destinations.ReadsGrammar`). Configured networks are
  given as parsed networks. A bit mask of leading ones is an integer quotient.
- Host names are resolved by a function of the name and the family; reverse lookups by one of the address.
- A read gives any number of characters up to the buffer's, so a short read may part a surrogate pair. A
  stream reader parts one only when the buffer is full; what is said of all ways of reading a text
  includes the others, and the witnesses of the conditions in `ProcessOutput.dfy` may use them.
- Latencies are reals. `TracerouteService.dfy` takes the blocklist, the text of an address and the reverse
  lookup as functions of the address.
- Round trips are read back for hops with times that are multiples of 0.01 ms, address texts that the
  runtime's parser reads (and does not read in parentheses) and host names without white space other
  than a lone star, and a target whose name has no line end. The platform's line end is a line feed.
- Configured limits (slots, queue length, retention, items, window) are not negative.

## Model

| member | source | states |
|---|---|---|
| Executor.SafeInEveryRun | src/Diagnostics/Execution/DiagnosticsExecutor.cs:22-101 | In every interleaving of any number of requests: free slots plus slot holders equal the configured slots; the waiting counter equals the admitted waiters plus the rejected requests that have not yet decremented it; admitted waiters never exceed the queue limit; the gauge of active requests, the metric of requests and the metric of failures (code by code) agree with where the requests stand |
| Executor.InvStep | src/Diagnostics/Execution/DiagnosticsExecutor.cs:22-101 | Each single access of any request keeps that invariant |
| Executor.Balance | src/Diagnostics/Execution/DiagnosticsExecutor.cs:22-101 | One access changes each shared counter by exactly the change in what its request contributes to it; a slot is only taken when one is free, and a request only becomes an admitted waiter when the counter is below the limit |
| Executor.FailureBalance | src/Diagnostics/Execution/DiagnosticsExecutor.cs:37-61 | One access raises the metric of failures exactly when it commits its request to fail with that code |
| Executor.CommitsWhenCounting | src/Diagnostics/Execution/DiagnosticsExecutor.cs:37-61 | A request becomes committed to a failure in the very access that counts it, and never without counting it |
| Executor.Accounting | src/Diagnostics/Execution/DiagnosticsExecutor.cs:22-101 | Requests started = successes + counted failures + requests cancelled before they got a slot (counted nowhere) + requests in flight, in every run |
| Executor.QuiescentIsClean | src/Diagnostics/Execution/DiagnosticsExecutor.cs:62-101 | When no request is live, every slot is free, the waiting counter and the gauge are 0 and the accounting closes without requests in flight |
| Executor.RejectionsByCause | src/Diagnostics/Execution/DiagnosticsExecutor.cs:47-95 | The metric of rejections separates the causes: each full queue and each expired wait counts once under its own label, and refused destinations under their code as often as they are counted as failed |
| Executor.RejectionsInAll | src/Diagnostics/Execution/DiagnosticsExecutor.cs:47-95 | In every run the metric of rejections has nothing but its four causes: its size, with the full queues and expired waits that are still to be counted, is the requests turned away by either plus the failures counted for an invalid and for a blocked destination |
| Executor.NoOtherRejection | src/Diagnostics/Execution/DiagnosticsExecutor.cs:37-61 | So no other failure, a deadline or an error of the work for one, ever raises the metric of rejections, under any label |
| Executor.FiredBeforeItStarts | src/Diagnostics/Execution/DiagnosticsExecutor.cs:73-78 | In every run a request whose token fired before its first access takes no slot, is never turned away and can only end cancelled |
| Executor.ArrivesInTime | src/Diagnostics/Execution/DiagnosticsExecutor.cs:73-78 | One whose token has not fired takes a slot in its first access exactly if one is free, and otherwise goes on to the queue |
| Executor.GaveUpWhenCancelled | src/Diagnostics/Execution/DiagnosticsExecutor.cs:73-101 | In every run a request that left without a slot and without a failure had its token fired |
| Executor.ReleasedOnce | src/Diagnostics/Execution/DiagnosticsExecutor.cs:62-101 | In every run a request takes at most one slot, and has given back what it took unless it holds it now; so every exit releases exactly once |
| Executor.EventsRunOut | src/Diagnostics/Execution/DiagnosticsExecutor.cs:22-101 | A measure on the phase of one request falls with each of its accesses |
| Executor.BoundedRuns | src/Diagnostics/Execution/DiagnosticsExecutor.cs:22-101 | No run is longer than eleven events for each request in it |
| Executor.CanAlwaysDrain | src/Diagnostics/Execution/DiagnosticsExecutor.cs:22-101 | From every reachable state there is a continuation without new arrivals in which every request finishes: no deadlock |
| Executor.RejectedWhen | src/Diagnostics/Execution/DiagnosticsExecutor.cs:80-86 | Exactly when a request is turned away for a full queue: the admitted waiters and the rejected requests that still have to decrement together reach the limit |
| Executor.RefusedAlthoughQueueIsEmpty | src/Diagnostics/Execution/DiagnosticsExecutor.cs:80-86 | A concrete run in which nobody waits and a request is still refused with a full queue, so the plain reading of the limit is false |
| Executor.DiagnosticsExecutor.constructor | src/Diagnostics/Execution/DiagnosticsExecutor.cs:14-18 | All slots free, all counters 0, no requests |
| Executor.DiagnosticsExecutor.Perform | src/Diagnostics/Execution/DiagnosticsExecutor.cs:22-101 | One access made in place on the shared fields is one step of the protocol: the whole new state is stated |
| Executor.DiagnosticsExecutor.QueueAccess | src/Diagnostics/Execution/DiagnosticsExecutor.cs:73-101 | The in-place accesses of the acquire path lead to the phase and the counters of the protocol |
| Executor.DiagnosticsExecutor.WorkAccess | src/Diagnostics/Execution/DiagnosticsExecutor.cs:28-68 | The in-place accesses around the work, catch blocks and `finally` included, lead to the phase and the counters of the protocol |
| Executor.DiagnosticsExecutor.ExecuteAsync | src/Diagnostics/Execution/DiagnosticsExecutor.cs:22-69 | With arbitrary accesses of other requests between its own, a call ends; its outcome is a cancellation without a slot, which needs a fired token, a busy refusal, or what its work ended with, as cancelled only if the token has fired; the shared state stays one the protocol reaches |
| Executor.DiagnosticsExecutor.RunAsync | src/Diagnostics/Execution/DiagnosticsExecutor.cs:33-68 | From a held slot, whatever the work does the call ends with its outcome and the slot is back |
| Executor.DiagnosticsExecutor.AcquireAsync | src/Diagnostics/Execution/DiagnosticsExecutor.cs:73-101 | Ends either holding a slot, or refused as busy or cancelled; cancelled for certain if the token had fired before, and with a slot for certain if it had not and one was free |
| Executor.DiagnosticsExecutor.WaitAsync | src/Diagnostics/Execution/DiagnosticsExecutor.cs:88-100 | The bounded wait and the decrement in its `finally`: a slot, an expired wait or a cancelled one; a slot for certain if the wait was granted one |
| Executor.DiagnosticsExecutor.EndWait | src/Diagnostics/Execution/DiagnosticsExecutor.cs:90-95 | A wait ends with a slot exactly if it is granted one that is free, and cancelled exactly if its token had fired |
| Executor.DiagnosticsExecutor.WorkAsync | src/Diagnostics/Execution/DiagnosticsExecutor.cs:35-61 | Whatever the work does, the call comes to its `finally` with the outcome of the work, counted if it is a failure; a cancelled work is a cancellation exactly if the token has fired at the catch, and otherwise a deadline |
| ConcurrencyGuard.SafeInEveryRun | src/Api/RateLimiting/ConcurrencyGuard.cs:13-57 | In every interleaving of entering, decrementing and the later compare-and-remove: the stored count of each client equals its requests that entered and have not decremented, no client has more than the limit in the next handler, and every stored zero has a pending remover |
| ConcurrencyGuard.InvStep | src/Api/RateLimiting/ConcurrencyGuard.cs:13-57 | Each access keeps that invariant, for the client it is about and for every other |
| ConcurrencyGuard.RemovalLosesNothing | src/Api/RateLimiting/ConcurrencyGuard.cs:15-22 | The compare-and-remove never changes the count of any client, however many requests entered after the decrement |
| ConcurrencyGuard.OnlyLiveKeys | src/Api/RateLimiting/ConcurrencyGuard.cs:11-22 | Every key in the dictionary belongs to a request that has not finished |
| ConcurrencyGuard.EmptyWhenFinished | src/Api/RateLimiting/ConcurrencyGuard.cs:11-22 | The dictionary is empty once all requests have finished |
| ConcurrencyGuard.AdmittedWhen | src/Api/RateLimiting/ConcurrencyGuard.cs:36-52 | A request is let through exactly when fewer than the limit of its client are inside, counting those that are only being refused |
| ConcurrencyGuard.RefusedWithNothingServed | src/Api/RateLimiting/ConcurrencyGuard.cs:36-57 | A concrete run in which a client with nothing being served is refused |
| ConcurrencyGuard.ConcurrencyTracker.Enter | src/Api/RateLimiting/ConcurrencyGuard.cs:13-13 | The dictionary after one more entry, and the count it returns |
| ConcurrencyGuard.ConcurrencyTracker.Decrement | src/Api/RateLimiting/ConcurrencyGuard.cs:17-17 | The dictionary after the decrement, and the remaining count |
| ConcurrencyGuard.ConcurrencyTracker.TryRemove | src/Api/RateLimiting/ConcurrencyGuard.cs:20-20 | The key disappears only if it still has the given value |
| ConcurrencyGuard.ConcurrencyTracker.Leave | src/Api/RateLimiting/ConcurrencyGuard.cs:15-22 | Undisturbed, it takes one off the count, keeps the key exactly if something is left, and leaves all other clients alone |
| ConcurrencyGuard.ConcurrencyGuard.Perform | src/Api/RateLimiting/ConcurrencyGuard.cs:27-58 | One access made in place, through the tracker, is one step of the protocol |
| ConcurrencyGuard.ConcurrencyGuard.InvokeAsync | src/Api/RateLimiting/ConcurrencyGuard.cs:35-57 | With arbitrary accesses of other requests in between, a guarded request finishes, and was passed on exactly if fewer than the limit of its client were inside when it entered |
| TtlCache.SafeInEveryRun | src/Api/Services/InfoServices.cs:14-37 | The invariant of gate, value, expiry and factory calls holds for any number of callers, a factory that may throw and a clock that never goes back |
| TtlCache.InvStep | src/Api/Services/InfoServices.cs:14-37 | Each access, and each tick of the clock, keeps that invariant |
| TtlCache.SingleFlight | src/Api/Services/InfoServices.cs:21-36 | At most one caller runs the factory at any time |
| TtlCache.FreshEnough | src/Api/Services/InfoServices.cs:16-31 | A returned value had been stamped less than the time to live before the clock reading of the caller's own freshness check, or after it; measured from when it was stored, the delay of the stamp comes on top |
| TtlCache.FreshExactly | src/Api/Services/InfoServices.cs:29-30 | Values are always returned less than the time to live after they were stored if and only if no time passes between storing a value and reading the clock for its expiry; for every positive delay a run returns a value that is the time to live old or older, and reaches the bound of FreshEnough |
| TtlCache.ServedLate | src/Api/Services/InfoServices.cs:16-31 | For every delay between store and stamp, a run in which a second caller is served a value whose age is that delay and the time to live less one tick |
| TtlCache.NothingInvented | src/Api/Services/InfoServices.cs:14-37 | Every value in the cache or in a result was returned by a factory call of the run, at the clock recorded with it |
| TtlCache.FactoryIsThrottled | src/Api/Services/InfoServices.cs:24-30 | A factory call starts only when the time to live has passed since every earlier success |
| TtlCache.SuccessRate | src/Api/Services/InfoServices.cs:24-30 | However many callers there are, k successes take at least k - 1 times the time to live |
| TtlCache.ReturnsAValue | src/Api/Services/InfoServices.cs:16-31 | The second read of the value, just before it is returned, never finds it missing |
| TtlCache.EndsBadlyOnlyIf | src/Api/Services/InfoServices.cs:14-37 | In every run a call ends with an exception only if its own factory threw, and cancelled only if its own token fired while it waited for the gate |
| TtlCache.ReturnsWhatItProduced | src/Api/Services/InfoServices.cs:29-31 | In every run a call whose own factory returned a value carries that value to its end: if it has ended, it returned just that |
| TtlCache.FreshIsServedAtOnce | src/Api/Services/InfoServices.cs:16-19 | A call that finds a value that has not expired returns it in four accesses, whoever is in the gate, and changes nothing else |
| TtlCache.MissStartsFactory | src/Api/Services/InfoServices.cs:16-29 | A call that finds none, or an expired one, goes to the gate, and starts the factory if that is still so behind it |
| TtlCache.Cache.Perform | src/Api/Services/InfoServices.cs:14-37 | One access made in place on the fields is one step of the protocol |
| TtlCache.Cache.AccessNext | src/Api/Services/InfoServices.cs:16-36 | The in-place form of each access of a call |
| TtlCache.Cache.GetAsync | src/Api/Services/InfoServices.cs:14-37 | With arbitrary accesses of other callers in between, a call ends, waiting for the gate while others hold it, and if it returns a value that value is fresh enough; it ends in an exception only if its factory produced nothing, and is cancelled only if it has no patience, the gate was taken when it came, or others enter it |
| TtlCache.Cache.AwaitTheGate | src/Api/Services/InfoServices.cs:21-21 | The wait ends inside the gate or with the call cancelled; with any patience a free gate lets the caller in |
| TtlCache.Cache.UnderGate | src/Api/Services/InfoServices.cs:22-36 | From the second check on, the call ends with the gate released on every path |
| Addresses.ParseIPv4 | src/Web/src/lib/validation.ts:34-46 | The loop computes the specification function of which V4Exact says what it accepts |
| Addresses.DottedIs | src/Web/src/lib/validation.ts:34-46 | The text of an address: its octets as decimal numerals in their order, with dots between them |
| Addresses.V4Exact | src/Web/src/lib/validation.ts:34-46 | The IPv4 parser accepts exactly the dotted-decimal texts without leading zeros, each for its own octets; so texts and addresses correspond one to one |
| Addresses.ParseIPv6 | src/Web/src/lib/validation.ts:63-106 | The imperative parser, statement by statement, computes the specification function of which V6Exact says what it accepts |
| Addresses.SplitTail | src/Web/src/lib/validation.ts:68-79 | Cutting off a dotted tail leaves the text in front of it and its two groups |
| Addresses.AssembleGroups | src/Web/src/lib/validation.ts:91-105 | Splitting at `::` and filling up with zeros |
| Addresses.SegmentGroups | src/Web/src/lib/validation.ts:81-89 | One segment read as colon-separated groups, or nothing |
| Addresses.V6Complete | src/Web/src/lib/validation.ts:63-106 | Every legal spelling of eight groups (any hexadecimal case, leading zeros up to four digits, any zero run as `::`, an optional dotted tail) is read back as those groups |
| Addresses.V6Sound | src/Web/src/lib/validation.ts:63-106 | Every accepted text is a legal spelling of the groups it is read as |
| Addresses.V6Exact | src/Web/src/lib/validation.ts:63-106 | The parser returns groups for a text if and only if the text spells them |
| Addresses.DenotedAt | src/Web/src/lib/validation.ts:68-105 | What a spelling denotes, group by group: the groups written before `::`, zeros, the groups written behind it, and the octets of a dotted tail two by two, the first of them the high byte |
| Addresses.GapIsZeros | src/Web/src/lib/validation.ts:92-99 | Writing `::` out as groups of zero denotes the same address |
| Addresses.V6Lower | src/Web/src/lib/validation.ts:63-106 | Letter case does not matter: every text is read like its lower-case form |
| Addresses.SpelledLength | src/Contracts/Networking/DestinationPolicy.cs:163-163 | No legal text is longer than the 45 characters the server allows |
| Addresses.GroupsInRange | src/Web/src/lib/validation.ts:63-106 | An accepted text always gives eight groups of 16 bits |
| Addresses.EveryAddressHasAText | src/Web/src/lib/validation.ts:63-106 | Each of the 2^128 addresses is the value of some accepted text |
| Rfc3986.ParserIsRule | src/Web/src/lib/validation.ts:63-106 | The parser accepts exactly the words of the rule `IPv6address` of section 3.2.2 of RFC 3986, written out as its nine alternatives |
| Rfc3986.RuleIsSpelled | src/Web/src/lib/validation.ts:63-106 | Every word of that rule is a legal spelling |
| Rfc3986.SpelledIsRule | src/Web/src/lib/validation.ts:63-106 | Every legal spelling is a word of that rule |
| IpBlocklist.IpBlocklist.constructor | src/Contracts/Networking/IpBlocklist.cs:49-58 | Configured networks come after the default ones, and none is lost |
| IpBlocklist.IpBlocklist.IsBlocked | src/Contracts/Networking/IpBlocklist.cs:62-83 | The nested loops decide the declarative meaning: some unwrapped form of the address is a metadata address or in some network |
| IpBlocklist.ExpandList | src/Contracts/Networking/IpBlocklist.cs:85-113 | The forms that are looked up, in order: mapped addresses are replaced, NAT64 and 6to4 addresses accompanied, by the IPv4 address inside |
| IpBlocklist.IsNat64WellKnown | src/Contracts/Networking/IpBlocklist.cs:115-131 | The index loop recognises exactly the prefix 64:ff9b::/96 |
| IpBlocklist.ContainsIsSameBits | src/Contracts/Networking/IpBlocklist.cs:73-79 | A network contains an address if and only if it is of its family and has its first bits, one by one |
| IpBlocklist.DefaultIsUnion | src/Contracts/Networking/IpBlocklist.cs:8-37 | Membership in the default list, network by network with bit prefixes, is one condition on the bytes of the address, for all 2^32 and all 2^128 addresses |
| IpBlocklist.MetadataInDefault | src/Contracts/Networking/IpBlocklist.cs:39-45 | The metadata addresses are covered by the default networks |
| IpBlocklist.BlockedIsUnion | src/Contracts/Networking/IpBlocklist.cs:62-113 | An address is blocked if and only if some unwrapped form of it is in a default range or in a configured network |
| IpBlocklist.PlainLikeListed | src/Contracts/Networking/IpBlocklist.cs:62-113 | An address that is neither mapped nor NAT64 nor 6to4 is blocked exactly when it is in a default range or in a configured network |
| IpBlocklist.Monotone | src/Contracts/Networking/IpBlocklist.cs:49-83 | Configuring more networks never unblocks an address |
| IpBlocklist.MappedLikeEmbedded | src/Contracts/Networking/IpBlocklist.cs:89-93 | An IPv4-mapped address is blocked exactly when its IPv4 address is, whatever is configured |
| IpBlocklist.Nat64LikeEmbedded | src/Contracts/Networking/IpBlocklist.cs:100-103 | An address of 64:ff9b::/96 is blocked exactly when its IPv4 address is or a configured network contains it; with the default list, exactly when its IPv4 address is |
| IpBlocklist.SixToFourBlocked | src/Contracts/Networking/IpBlocklist.cs:104-107 | Every 6to4 address is blocked, whatever it embeds |
| IpBlocklist.WebIsWeaker4 | src/Web/src/lib/validation.ts:48-61 | Over all 2^32 addresses: what the web client refuses the server refuses, and the server refuses exactly five ranges more |
| IpBlocklist.WebNamesTheBlock4 | src/Web/src/lib/validation.ts:48-61 | The block named in the client's message contains the address and is on the server's list |
| IpBlocklist.TailIsWritten | src/Web/src/lib/validation.ts:68-79 | For every legal spelling with a dotted tail the last four bytes of the address it denotes are the octets written |
| IpBlocklist.MappedText | src/Web/src/lib/validation.ts:115-120 | The text `::ffff:` followed by a dotted IPv4 address is read as carrying that address, and is refused, with the reason of that address, exactly if that address is |
| IpBlocklist.WebNamesTheBlock6 | src/Web/src/lib/validation.ts:108-122 | What the reasons for IPv6 addresses mean: the block named contains the address and is on the list of the server, and the unspecified, loopback and embedded ones are what they say |
| IpBlocklist.WebIsWeaker6 | src/Web/src/lib/validation.ts:108-122 | Over all 2^128 addresses: what the web client refuses the server refuses |
| IpBlocklist.ServerDifference6 | src/Web/src/lib/validation.ts:108-122 | Exactly which IPv6 addresses the server's default list refuses beyond the web client |
| Destinations.UnderIsLabelSuffix | src/Contracts/Networking/DestinationPolicy.cs:87-98 | The string test on a name and a suffix holds exactly when the labels of the suffix end the labels of the name |
| Destinations.BlockedBelow | src/Contracts/Networking/DestinationPolicy.cs:87-98 | Whatever is below a blocked name is blocked |
| Destinations.NameParses | src/Contracts/Networking/DestinationPolicy.cs:191-230 | What the server answers to any lower-case name with valid labels, at least two of them and the last not a number: invalid for an underscore in the last label, else blocked or accepted as the same text, by the suffix list alone |
| Destinations.AcceptedIsName | src/Web/src/lib/validation.ts:169-186 | Every hostname the web client accepts is such a name |
| Destinations.AcceptedInput | src/Web/src/lib/validation.ts:132-187 | What acceptance says of the trimmed input, kind by kind |
| Destinations.NameAgreement | src/Web/src/lib/validation.ts:132-187 | For every policy and input: a hostname the web client accepts without underscores is never invalid to the server; it is blocked as a name or accepted as the same text |
| Destinations.UnderscoreAgreement | src/Web/src/lib/validation.ts:174-186 | With underscores allowed on both sides the server answers invalid if and only if the last label has an underscore; otherwise they agree as above |
| Destinations.UnderscoreCounterexample | src/Contracts/Networking/DestinationPolicy.cs:218-222 | The name `a._` is accepted by the web client and invalid to the server |
| Destinations.V4Agreement | src/Contracts/Networking/DestinationPolicy.cs:137-159 | An IPv4 text the web client accepts is, to the server, that address: blocked, or accepted with the same text |
| Destinations.V6Agreement | src/Contracts/Networking/DestinationPolicy.cs:161-174 | For every address parser that follows the grammar: an IPv6 text the web client accepts is, to the server, the same address, blocked or accepted |
| Destinations.SameV6Language | src/Contracts/Networking/DestinationPolicy.cs:161-174 | With such a parser the server calls a text with a colon invalid if and only if the web client finds no groups in it |
| Destinations.InternalNamesBlocked | src/Web/src/lib/validation.ts:128-130 | Every name that is internal to the web client is blocked by the list the server keeps, with any configuration |
| Destinations.InternalNamesRefused | src/Web/src/lib/validation.ts:172-184 | Whatever host the web client refuses as internal, after its label rules, the server refuses as blocked |
| Destinations.BlockedNames | src/Contracts/Networking/DestinationPolicy.cs:71-98 | A name is blocked if and only if it is under a default suffix or under the trimmed, lower-case form of a configured one that is not empty |
| Destinations.NormalisedMember | src/Contracts/Networking/DestinationPolicy.cs:74-80 | The list that is kept has exactly the trimmed, lower-case forms that are not empty |
| Destinations.SuffixIsNormalised | src/Contracts/Networking/DestinationPolicy.cs:74-80 | A suffix may be configured in any letter case, with dots and white space around it |
| Destinations.HostnameIsFixedPoint | src/Contracts/Networking/DestinationPolicy.cs:191-230 | Reading an accepted hostname again gives the same hostname |
| Destinations.V4IsFixedPoint | src/Contracts/Networking/DestinationPolicy.cs:137-189 | Reading the text of an accepted IPv4 address again gives the same address and text |
| Destinations.DestinationPolicy.constructor | src/Contracts/Networking/DestinationPolicy.cs:71-81 | The suffixes kept are those of NormalisedMember, defaults first; the networks are the default ones and the configured ones |
| Destinations.DestinationPolicy.IsBlockedName | src/Contracts/Networking/DestinationPolicy.cs:87-98 | The loop finds a suffix if and only if one applies |
| Destinations.DestinationPolicy.ParseIpv4 | src/Contracts/Networking/DestinationPolicy.cs:137-159 | The loop that fills the byte array reads exactly the texts the grammar of IPv4 addresses allows, and answers by the blocklist |
| Destinations.DestinationPolicy.ValidLabel | src/Contracts/Networking/DestinationPolicy.cs:232-253 | The loop decides the declarative condition on a label |
| Destinations.DestinationPolicy.ParseName | src/Contracts/Networking/DestinationPolicy.cs:191-230 | The early returns decide the specification of hostnames of which AcceptedNames and RefusedInputs say exactly what it accepts and refuses |
| Destinations.DestinationPolicy.ParseInput | src/Contracts/Networking/DestinationPolicy.cs:100-135 | The whole parser decides the specification of which AcceptedNames, AcceptedV4, AcceptedV6 and RefusedInputs say exactly what it accepts and refuses |
| DestinationInputs.CaseDoesNotMatter | src/Contracts/Networking/DestinationPolicy.cs:100-230 | For every policy and text the server answers to the lower-case form what it answers to the text; for texts with a colon, if the runtime's parser follows the grammar |
| DestinationInputs.TrailingDot | src/Contracts/Networking/DestinationPolicy.cs:198-198 | One more dot behind a trimmed name shorter than 255 characters changes no answer of the server |
| DestinationInputs.ParseByName | src/Contracts/Networking/DestinationPolicy.cs:191-230 | The verdict on every input whose canonical form (without white space around it and dots behind it, in lower case) has labels the server can read |
| DestinationInputs.AcceptedNames | src/Contracts/Networking/DestinationPolicy.cs:100-230 | An input of at most 255 characters is accepted as a hostname if and only if its canonical form is a name of at most 253 characters with two valid labels or more, the last neither a number nor with an underscore, under no kept suffix; it is accepted as that form, which is in lower case |
| DestinationInputs.AcceptedV4 | src/Contracts/Networking/DestinationPolicy.cs:100-189 | An input is accepted as an IPv4 address if and only if, trimmed, it is the dotted text of an address that is not blocked |
| DestinationInputs.AcceptedV6 | src/Contracts/Networking/DestinationPolicy.cs:100-189 | With a parser that follows the grammar, an input is accepted as an IPv6 address if and only if, trimmed, it spells one that is not blocked |
| DestinationInputs.RefusedInputs | src/Contracts/Networking/DestinationPolicy.cs:100-230 | With such a parser, an input is refused if and only if it is the text of a blocked address, or its canonical form is a readable name that is a single label or under a kept suffix; everything else is invalid or accepted |
| DestinationInputs.InternalInputsRefused | src/Contracts/Networking/DestinationPolicy.cs:47-98 | No default suffix can be avoided: whatever input has a canonical form with valid labels under one is refused, in any letter case, with any dots behind it and any configuration |
| DestinationInputs.SameLabels | src/Web/src/lib/validation.ts:173-179 | In lower case the web client and the server have the same rule for labels, with and without underscores |
| DestinationInputs.WebAcceptsNames | src/Web/src/lib/validation.ts:132-187 | The web client accepts an input of at most 253 characters as a hostname if and only if it has, without one dot behind it and in lower case, two labels or more, valid ones, the last not a number, and is not internal |
| DestinationInputs.WebAcceptsV4 | src/Web/src/lib/validation.ts:160-167 | It accepts an input as an IPv4 address if and only if it is the dotted text of one it has no reason to refuse, unless only IPv6 is asked for |
| DestinationInputs.WebAcceptsV6 | src/Web/src/lib/validation.ts:151-158 | It accepts an input as an IPv6 address if and only if it spells one it has no reason to refuse, unless only IPv4 is asked for |
| ActivityLog.ActivityLog.Add | src/Api/Services/ActivityLog.cs:11-28 | The item goes on top; the list remains what filtering and capping the whole history gives |
| ActivityLog.ActivityLog.Snapshot | src/Api/Services/ActivityLog.cs:30-43 | Every snapshot equals the first items of the whole reversed history filtered by the retention cutoff |
| ActivityLog.ActivityLog.Prune | src/Api/Services/ActivityLog.cs:45-49 | The pruned list is the simple definition applied at the new reading of the clock |
| ActivityLog.PruneAgain | src/Api/Services/ActivityLog.cs:19-49 | Pruning what was pruned and capped before loses nothing that pruning the whole history keeps |
| ActivityLog.RecentIsPrefix | src/Api/Services/ActivityLog.cs:45-49 | What pruning keeps of a list that runs backwards in time is a prefix of it, cut exactly at the cutoff |
| ActivityLog.AddedAtTop | src/Api/Services/ActivityLog.cs:22-26 | Adding on top and capping is the simple definition on the longer history |
| ActivityLog.ShownAt | src/Api/Services/ActivityLog.cs:30-49 | Item by item: the i-th newest of everything ever added is shown in place i if and only if i is below the cap and it is not older than the retention time in minutes |
| ConnectivityMonitor.Monitor.SampleOnce | src/Diagnostics/Connectivity/ConnectivityMonitor.cs:75-80 | After each round both windows hold exactly the recorded samples that are recent enough |
| ConnectivityMonitor.Monitor.Record | src/Diagnostics/Connectivity/ConnectivityMonitor.cs:159-170 | The window of one family after one sample is the filtered whole history; the other family is untouched |
| ConnectivityMonitor.WithinTwice | src/Diagnostics/Connectivity/ConnectivityMonitor.cs:168-169 | Dropping old samples in two steps is dropping them once |
| ConnectivityMonitor.WindowHas | src/Diagnostics/Connectivity/ConnectivityMonitor.cs:159-170 | The window of a family has exactly its recorded samples of the last `windowSeconds` seconds |
| ConnectivityMonitor.OldIsDropped | src/Diagnostics/Connectivity/ConnectivityMonitor.cs:168-169 | A sample that is too old makes no difference to the window, wherever it is |
| ConnectivityMonitor.RecentAreKept | src/Diagnostics/Connectivity/ConnectivityMonitor.cs:168-169 | And samples that are not too old are all kept, in order |
| ConnectivityMonitor.ChunksPartition | src/Diagnostics/Connectivity/ConnectivityMonitor.cs:208-209 | The chunks are the samples in order, all of full size but perhaps the last |
| ConnectivityMonitor.ChunkSizeBounds | src/Diagnostics/Connectivity/ConnectivityMonitor.cs:208-208 | The chunk size is the least that gives at most 288 chunks |
| ConnectivityMonitor.PointCount | src/Diagnostics/Connectivity/ConnectivityMonitor.cs:200-214 | A history longer than 288 is shown as between 145 and 288 points |
| ConnectivityMonitor.PointMeaning | src/Diagnostics/Connectivity/ConnectivityMonitor.cs:209-213 | A point carries its chunk's first time, is empty exactly when the whole chunk failed, and is otherwise a number of hundredths within half a hundredth of the mean of its successes |
| ConnectivityMonitor.RoundedNear | src/Diagnostics/Connectivity/ConnectivityMonitor.cs:212-212 | Rounding to two decimals gives hundredths, moves a number by half a hundredth at most, and leaves hundredths alone |
| ConnectivityMonitor.LatencyConserved | src/Diagnostics/Connectivity/ConnectivityMonitor.cs:200-214 | The points that are shown, weighted by their successes, add up to all successful latencies but for half a hundredth for each success; so their weighted mean is within half a hundredth of the mean of the whole window |
| ProcessOutput.ReadCapped | src/Diagnostics/Execution/ProcessRunner.cs:82-123 | The read loop over its buffer of 4096 characters computes the capped copy of which the lemmas below speak |
| ProcessOutput.CopyIsCappedPrefix | src/Diagnostics/Execution/ProcessRunner.cs:82-123 | The copy is a prefix of what was delivered, has at most the limit in characters, is cut exactly when the chunks have more bytes than the limit, and is everything delivered otherwise |
| ProcessOutput.CutInRead | src/Diagnostics/Execution/ProcessRunner.cs:104-119 | The first read that does not fit is cut at as many characters as there are bytes left; the reads before it are copied whole, and nothing after it is |
| ProcessOutput.SingleByteCopy | src/Diagnostics/Execution/ProcessRunner.cs:109-119 | Single-byte text is cut at exactly the limit, however it arrives |
| ProcessOutput.ChunkingIsIrrelevant | src/Diagnostics/Execution/ProcessRunner.cs:109-119 | For a text, all ways of reading it give the same copy and the same report at every limit, if and only if every character but the last is a single byte |
| ProcessOutput.ChunkingIsIrrelevantAt | src/Diagnostics/Execution/ProcessRunner.cs:85-119 | At a given limit and buffer, all ways of reading a text give the same copy and report if and only if the limit is hit by none of them, or by all of them with no read that can carry one more character than reading one by one |
| ProcessOutput.TheCopy | src/Diagnostics/Execution/ProcessRunner.cs:85-119 | Where that is so, which copy it is: the whole text, or the characters before which a byte of the limit is left |
| ProcessOutput.ChunkingMattersAt | src/Diagnostics/Execution/ProcessRunner.cs:109-119 | For every limit of two bytes or more there is a text whose copy depends on how it arrives |
| ProcessOutput.WithinLimit | src/Diagnostics/Execution/ProcessRunner.cs:85-119 | For a text and a limit, no way of reading it through a buffer gives a copy with more bytes than the limit if and only if the text has no more bytes, or some first characters take exactly the limit and those of them that can share a read with the next one add one byte each |
| ProcessOutput.WithinLimitUnbuffered | src/Diagnostics/Execution/ProcessRunner.cs:109-119 | The same without a buffer of limited size: if and only if the text has no more bytes, or its first characters up to the limit are all single bytes |
| ProcessOutput.CopyBytes | src/Diagnostics/Execution/ProcessRunner.cs:85-119 | Read through a buffer, the copy has at most the limit plus two bytes for each character of one read: with 4096 characters, at most the limit plus 8192. It has at most the limit when it was not cut |
| ProcessOutput.BytesExceedLimit | src/Diagnostics/Execution/ProcessRunner.cs:85-119 | That bound is reached, for every limit and every buffer |
| ReverseName.ReverseNameOf | src/Diagnostics/Dns/DnsQuery.cs:134-150 | The method computes the name that RoundTrip reads back |
| ReverseName.Ip6Name | src/Diagnostics/Dns/DnsQuery.cs:142-149 | The descending loop writes the nibbles low one first from the last byte to the first |
| ReverseName.RoundTrip | src/Diagnostics/Dns/DnsQuery.cs:134-150 | A reader recovers every 4-byte and 16-byte address from its reverse name |
| ReverseName.Ip6LabelAt | src/Diagnostics/Dns/DnsQuery.cs:142-149 | The labels of the name of an IPv6 address: its 32 hexadecimal digits from the last to the first, then `ip6` and `arpa` |
| ReverseName.Injective | src/Diagnostics/Dns/DnsQuery.cs:134-150 | No two addresses share a reverse name |
| ReverseName.Ip6Length | src/Diagnostics/Dns/DnsQuery.cs:142-149 | The name of an IPv6 address has exactly the 72 characters reserved for it |
| DiagnosticHook.Hook.Start | src/Web/src/hooks/useDiagnostic.ts:28-33 | The displayed state remains the simple function of the history of events |
| DiagnosticHook.Hook.Complete | src/Web/src/hooks/useDiagnostic.ts:35-46 | The same, for any settlement of any run at any time |
| DiagnosticHook.Hook.CancelRun | src/Web/src/hooks/useDiagnostic.ts:49-51 | The same; nothing displayed changes until the run settles |
| DiagnosticHook.Hook.ResetState | src/Web/src/hooks/useDiagnostic.ts:53-57 | The same; the idle state is displayed at once |
| DiagnosticHook.SettleShows | src/Web/src/hooks/useDiagnostic.ts:35-46 | A settlement changes what is displayed exactly if it is the latest run's, to its result, its error or, after a cancel, to cancelled |
| DiagnosticHook.RunIsShown | src/Web/src/hooks/useDiagnostic.ts:28-47 | The story of a run: shown as running until it settles, and then, until the next run or reset, as its result, as its error or as cancelled; a failure as cancelled exactly if the run was cancelled before it |
| DiagnosticHook.StaleIsIgnored | src/Web/src/hooks/useDiagnostic.ts:37-40 | A run that was superseded or reset away never changes what is displayed, whatever happens in between and whatever it settles with |
| DiagnosticHook.StaleMeans | src/Web/src/hooks/useDiagnostic.ts:29-40 | The comparison of controllers the hook makes when a run settles says exactly that the run was superseded or reset away at some time after it started |
| DiagnosticHook.ResetLasts | src/Web/src/hooks/useDiagnostic.ts:53-57 | After a reset nothing is displayed until the next run, however many earlier runs settle |
| QueryHook.Hook.Start | src/Web/src/hooks/useApiQuery.ts:35-39 | The displayed data, error, time and refreshing flag remain the simple function of the history of events |
| QueryHook.Hook.Complete | src/Web/src/hooks/useApiQuery.ts:40-51 | The same, for any settlement of any fetch at any time |
| QueryHook.Hook.TearDown | src/Web/src/hooks/useApiQuery.ts:66-69 | The same, when the effect is torn down |
| QueryHook.CommitsMoveForward | src/Web/src/hooks/useApiQuery.ts:35-52 | Settlements that count come from fetches that started one after the other |
| QueryHook.StaleIsIgnored | src/Web/src/hooks/useApiQuery.ts:42-47 | A fetch that was superseded or torn down never changes data, error or time, whatever happens in between and whatever it settles with |
| QueryHook.StaleMeans | src/Web/src/hooks/useApiQuery.ts:36-42 | The abort signal the hook looks at says exactly that the fetch was superseded or torn down at some time after it started |
| QueryHook.SettlementShows | src/Web/src/hooks/useApiQuery.ts:40-49 | What a settlement changes: nothing if its fetch is stale or aborted, the error alone if it failed, and data, error and time if it succeeded |
| QueryHook.DataComesFrom | src/Web/src/hooks/useApiQuery.ts:41-45 | The displayed data and time are those of the last success that counted, or the initial ones |
| QueryHook.RefreshingMeans | src/Web/src/hooks/useApiQuery.ts:39-50 | The hook shows that it is refreshing exactly while the latest fetch has not settled |
| TracerouteService.RedactionHides | src/Diagnostics/Services/DiagnosticsService.cs:53-90 | Non-interference of the presentation: with redaction on, two traces that differ only in which blocked addresses appear at blocked hops give the same hops, averages and text and, for a target that is not blocked, the same reached flag |
| TracerouteService.LookupsAgree | src/Diagnostics/Services/DiagnosticsService.cs:158-191 | Two such traces cause the same reverse lookups in the same order |
| TracerouteService.UnblockedDistinct | src/Diagnostics/Services/DiagnosticsService.cs:167-171 | Dropping duplicates and dropping blocked addresses commute |
| TracerouteService.BlockedNeverNamed | src/Diagnostics/Services/DiagnosticsService.cs:141-191 | A blocked address is never looked up or named, and with redaction on never shown |
| TracerouteService.LooksUpOnce | src/Diagnostics/Services/DiagnosticsService.cs:158-180 | With lookups on, exactly the public addresses of the trace are looked up, each once |
| TracerouteService.HopMeans | src/Diagnostics/Services/DiagnosticsService.cs:58-74 | What each hop of an answer says: number and times as they are; that it did not respond exactly if there is neither an address nor a time; the text of its address unless that is hidden; its name exactly if lookups are on, the address is public and the name is not blank |
| TracerouteService.ReachedMeans | src/Diagnostics/Services/DiagnosticsService.cs:77-77 | The target is reached exactly if the last hop has its address, whatever the others have |
| TracerouteService.AverageMeans | src/Diagnostics/Services/DiagnosticsService.cs:63-72 | The average of a hop: none exactly if there is no time, and otherwise the mean of the times there are, to the nearest thousandth |
| TracerouteService.TotalsGlue | src/Diagnostics/Services/DiagnosticsService.cs:63-72 | Sum and number of the times, of which that mean is made, are those of the parts of a list added up |
| TracerouteService.HidesExactly | src/Diagnostics/Services/DiagnosticsService.cs:77-77 | No part of an answer for a target depends on which blocked addresses appear if and only if the target is not blocked, as soon as there is another blocked address; so the guard on targets is needed |
| TargetResolver.TargetIsPublic | src/Diagnostics/Security/TargetResolver.cs:13-52 | Every target is a public address: the literal that was typed, with the family asked for, or the preferred address of a name none of whose addresses is blocked |
| TargetResolver.TargetIs | src/Diagnostics/Security/TargetResolver.cs:13-52 | Exactly which target an input has: a literal of the family asked for is its own, and a name has the first IPv4 address found, or else the first address, if none found is blocked |
| TargetResolver.ProblemIs | src/Diagnostics/Security/TargetResolver.cs:13-48 | Exactly why an input has no target: it is invalid, or a literal of the other family; it is refused, or a name one of whose addresses is blocked; or it is a name without an address |
| TargetResolver.EveryAnswerHides | src/Diagnostics/Services/DiagnosticsService.cs:50-91 | Non-interference for every answer of the service, from the input on: with redaction on, no part of an answer depends on which blocked addresses appear at blocked hops |
| TextRenderer.Traceroute | src/Diagnostics/Services/TextRenderer.cs:35-57 | The builder loop, the change of line ends and the final trim write the text whose reading the round trip is about |
| TracerouteParser.ParseOutput | src/Diagnostics/Probes/Parsers.cs:89-135 | The loop over the lines computes the specification parser; it gives nothing exactly when a hop number does not fit 32 bits |
| TracerouteParser.DigitByDigit | src/Diagnostics/Probes/Parsers.cs:116-116 | The value of a text of digits, of any length: the last digit counts one and every other ten times what it counts without the last |
| TracerouteParser.FractionDigitByDigit | src/Diagnostics/Probes/Parsers.cs:116-116 | Fractions of any length: ten times a fraction is its first digit plus the fraction after that; a fraction of one digit is that many tenths |
| TracerouteParser.WholeAndFraction | src/Diagnostics/Probes/Parsers.cs:116-116 | A number is its whole part plus its fraction, either of which may be missing |
| TracerouteParser.ThousandthsReadBack | src/Diagnostics/Probes/Parsers.cs:116-116 | Every whole number of thousandths, written with three decimals, reads as itself |
| TracerouteParser.NumbersAre | src/Diagnostics/Probes/Parsers.cs:116-116 | A text is a number if and only if it is digits, perhaps with one point before, between or behind them |
| TracerouteParser.ParseOne | src/Diagnostics/Probes/Parsers.cs:94-131 | One line gives its hop, none, or an overflow |
| TracerouteParser.ScanTokens | src/Diagnostics/Probes/Parsers.cs:105-126 | The token loop, which skips after a time and keeps the first address, computes the recursive scan |
| TracerouteLines.ItemsRead | src/Diagnostics/Probes/Parsers.cs:105-126 | A list of stars, times, annotations, addresses and other words in any order is read as all times in their order, a star being a missing one, and the first address |
| TracerouteLines.EveryLineReads | src/Diagnostics/Probes/Parsers.cs:105-126 | Every list of words is such a list |
| TracerouteLines.HopLines | src/Diagnostics/Probes/Parsers.cs:86-103 | The pattern of a hop matches exactly the lines of optional white space, digits, white space and a rest, and finds the number and that rest |
| TracerouteLines.WordsBetweenBlanks | src/Diagnostics/Probes/Parsers.cs:104-104 | Words with blanks between them, however many, are the tokens |
| TracerouteLines.LineSays | src/Diagnostics/Probes/Parsers.cs:94-131 | A line with a hop number and items is read as that number, the first address and all times, unless it has neither an address nor a time; carriage returns at its end do not matter; it overflows exactly from the hop number 2^31 on |
| TracerouteLines.OtherLines | src/Diagnostics/Probes/Parsers.cs:94-101 | A line that does not begin with a hop number says nothing |
| TracerouteRoundTrip.RoundTrip | src/Diagnostics/Probes/Parsers.cs:89-135 | The parser reads every rendered trace of readable hops back, hop by hop, as exactly what EchoOf says; the header, the padding and the trimmed last line do not matter |
| TracerouteRoundTrip.CompleteRoundTrip | src/Diagnostics/Probes/Parsers.cs:89-135 | As many hops come back as were written if and only if no hop without a time is redacted or shown under a name that is not itself an address; then they come back one for one, in order, with their numbers |
| TracerouteRoundTrip.LineEchoes | src/Diagnostics/Probes/Parsers.cs:94-131 | One line, trimmed or not, is read back as its hop |
| TracerouteRoundTrip.FirstLine | src/Diagnostics/Services/TextRenderer.cs:38-38 | The first line names the target, by its address alone exactly if that is what was typed in some letter case, and says how many hops there may be |
| TracerouteRoundTrip.NumberRoundTrip | src/Diagnostics/Services/TextRenderer.cs:41-41 | Every multiple of 0.01 ms is printed, in the invariant culture of the build, as a number that reads back as itself |
| TracerouteRoundTrip.TimeReadsBackNear | src/Diagnostics/Services/TextRenderer.cs:41-41 | Every time is printed as a number within half a hundredth of it |
| TracerouteRoundTrip.NumberReadsBack | src/Diagnostics/Services/TextRenderer.cs:41-41 | With any separator of decimals, a number reads back if and only if the separator is a point or there is no fraction |
| TracerouteRoundTrip.Survives | src/Diagnostics/Services/TextRenderer.cs:41-53 | Hop numbers survive the round trip; so do the times of a hop that is redacted or shows an address, and an address shown without a name |
| TracerouteRoundTrip.AnswerSurvives | src/Diagnostics/Services/TextRenderer.cs:42-53 | Exactly when the responded flag survives: the hop did not respond, or has a time, or shows an address without a name or with a name that reads as an address |
| TracerouteRoundTrip.RedactedAnswerLost | src/Diagnostics/Services/TextRenderer.cs:42-53 | A redacted hop without a time comes back as one that did not respond |

## Left out

- Executor.Possible: does not model an exception between acquiring a slot and entering the `try` (lines 28-31 of the source), such as a failure to create the timer.
- Executor.DiagnosticsExecutor.ExecuteAsync: leaves out the metric of request durations and the metric labels of the diagnostic's type.
- ConcurrencyGuard.ConcurrencyGuard.InvokeAsync: leaves out requests to other paths, which bypass the guard, and the body of the refusal.
- TtlCache.FreshEnough: does not model a torn read of the expiry, whose type is wider than a machine word.
- TracerouteParser.ParseNumber: reads unsigned decimals only; signs, exponents, `infinity` and `NaN`, which the runtime's number parser accepts, are not modelled.
- TracerouteParser.HopPattern: takes the pattern as its meaning, on ASCII digits and white space, rather than modelling the regular-expression engine.
- TextRenderer.FormatMs: rounds half up where the runtime's formatting of binary floating point may differ in the last digit; the round trip only uses multiples of 0.01.
- Destinations.V6Agreement: says nothing of the text the server gives an IPv6 address, which is the runtime's.
- Destinations.Validate: gives the verdict of the web client, not the wording of its messages; the blocks named in them are modelled.
- DiagnosticHook.Hook: the teardown of the component aborts the current run exactly as a cancel does and has no event of its own; the attempt counter's use as a countdown key is not modelled.
- TracerouteService.LookupsAgree: leaves out the time budget of reverse lookups, which makes a slow lookup count as nameless.
- The status, uptime and totals of the connectivity summary and its metrics: each is settled by reading one expression.
- Starting and killing processes, sockets, DNS transport, HTTP, Prometheus queries and health checks: library calls.
- The parsers of ping and mtr output and the rendering of both: they depend on the regular-expression and JSON libraries, and the mtr presentation repeats that of traceroute.
- The sliding-window rate limiter, the hashing of client addresses and the daily key rotation: libraries that are not part of this model.
- The resolution of host names by DNS, the overall status, traffic nodes and egress addresses: library calls, short decisions, or the cache's pattern again.
- ConnectivityMonitor.LatencyConserved: over reals, so the error of binary floating point, beside the rounding to two decimals, is not modelled.
- React components, charts, formatting, themes, security headers, deployment files and documentation.
