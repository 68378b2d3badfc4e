/** The guard in front of every diagnostic (src/Diagnostics/Security/TargetResolver.cs), and what it means
    for the answers of a traceroute: the target of an answer is never a blocked address. */
module TargetResolver {
  import opened Options
  import opened TextRenderer
  import opened IpBlocklist
  import opened Destinations
  import opened TracerouteService

  datatype Problem = ValidationFailed | DestinationBlocked | ResolutionFailed

  datatype Resolution = Target(destination: string, address: Address) | Throws(problem: Problem)

  predicate IsV4(a: Address) { |a| == 4 }

  predicate Matches(a: Address, family: Family) {
    match family
    case Ipv4Only => IsV4(a)
    case Ipv6Only => !IsV4(a)
    case AutoFamily => true
  }

  predicate AnyBlocked(p: Policy, found: seq<Address>) {
    exists i :: 0 <= i < |found| && Blocked(p.nets, found[i])
  }

  predicate IsFirstV4(found: seq<Address>, i: int) {
    0 <= i < |found| && IsV4(found[i]) && forall j :: 0 <= j < i ==> !IsV4(found[j])
  }

  /** The position of the first IPv4 address, or else 0. */
  function Chosen(found: seq<Address>): (i: nat)
    requires found != []
    ensures i < |found|
    ensures IsFirstV4(found, i) || (i == 0 && forall j :: 0 <= j < |found| ==> !IsV4(found[j]))
  {
    FirstV4(found, 0)
  }

  function FirstV4(found: seq<Address>, k: nat): (i: nat)
    requires found != [] && k <= |found| && forall j :: 0 <= j < k ==> !IsV4(found[j])
    ensures i < |found|
    ensures IsFirstV4(found, i) || (i == 0 && forall j :: 0 <= j < |found| ==> !IsV4(found[j]))
    decreases |found| - k
  {
    if k == |found| then 0 else if IsV4(found[k]) then k else FirstV4(found, k + 1)
  }

  /** The names' part: all addresses found must be public, and an IPv4 address is preferred. */
  function ResolveName(p: Policy, name: string, found: seq<Address>): Resolution {
    if found == [] then Throws(ResolutionFailed)
    else if AnyBlocked(p, found) then Throws(DestinationBlocked)
    else Target(name, found[Chosen(found)])
  }

  /** `lookup` is the answer of the resolver of host names; `show` the runtime's text of an address. */
  function Resolve(p: Policy, show: Address -> string, lookup: (string, Family) -> seq<Address>,
                   input: string, family: Family): Resolution {
    match Parse(p, input, false)
    case Invalid => Throws(ValidationFailed)
    case Refused => Throws(DestinationBlocked)
    case Ok(d) =>
      if d.Hostname? then ResolveName(p, d.text, lookup(d.text, family))
      else if !Matches(d.bytes, family) then Throws(ValidationFailed)
      else Target(if d.Address4? then d.text else show(d.bytes), d.bytes)
  }

  /** An accepted address is not blocked: no other branch of the policy returns one. */
  lemma AcceptedAddress(p: Policy, input: string, underscore: bool)
    requires Parse(p, input, underscore).Ok? && !Parse(p, input, underscore).destination.Hostname?
    ensures !Blocked(p.nets, Parse(p, input, underscore).destination.bytes)
  {
  }

  /** Every target is a public address, with any configuration, resolver and input: the literal that was
      typed, if it has the family asked for, or the preferred one of the addresses of the name, all of
      which are public. */
  lemma TargetIsPublic(p: Policy, show: Address -> string, lookup: (string, Family) -> seq<Address>,
                       input: string, family: Family)
    requires Resolve(p, show, lookup, input, family).Target?
    ensures var t := Resolve(p, show, lookup, input, family).address;
            && !Blocked(p.nets, t) && Parse(p, input, false).Ok?
            && match Parse(p, input, false).destination
               case Hostname(name) =>
                 var found := lookup(name, family);
                 t in found && !AnyBlocked(p, found) && (!IsV4(t) ==> forall i :: 0 <= i < |found| ==> !IsV4(found[i]))
               case literal => t == literal.bytes && Matches(t, family)
  {
    var d := Parse(p, input, false).destination;
    if d.Hostname? {
      var found := lookup(d.text, family);
      assert !Blocked(p.nets, found[Chosen(found)]);
    } else {
      AcceptedAddress(p, input, false);
    }
  }

  predicate IsPreferred(found: seq<Address>, i: int) {
    IsFirstV4(found, i) || (i == 0 && found != [] && forall j :: 0 <= j < |found| ==> !IsV4(found[j]))
  }

  /** Exactly which target an input has: a literal of the family asked for is its own target, and a name has the
      first IPv4 address found, or else the first address, if none of the addresses found is blocked. */
  lemma TargetIs(p: Policy, show: Address -> string, lookup: (string, Family) -> seq<Address>, input: string,
                 family: Family, t: string, a: Address)
    ensures Resolve(p, show, lookup, input, family) == Target(t, a) <==>
      match Parse(p, input, false)
      case Ok(Hostname(name)) =>
        var found := lookup(name, family);
        t == name && !AnyBlocked(p, found) && exists i :: 0 <= i < |found| && found[i] == a && IsPreferred(found, i)
      case Ok(literal) => a == literal.bytes && Matches(a, family) && t == if literal.Address4? then literal.text else show(a)
      case _ => false
  {
    var r := Parse(p, input, false);
    if r.Ok? && r.destination.Hostname? {
      var found := lookup(r.destination.text, family);
      if found != [] {
        assert IsPreferred(found, Chosen(found));
        if i :| 0 <= i < |found| && found[i] == a && IsPreferred(found, i) {
          assert i == Chosen(found);
        }
      }
    }
  }

  /** And exactly why there is none. */
  lemma ProblemIs(p: Policy, show: Address -> string, lookup: (string, Family) -> seq<Address>, input: string,
                  family: Family)
    ensures var r, d := Resolve(p, show, lookup, input, family), Parse(p, input, false);
            && (r == Throws(ValidationFailed) <==>
                  d.Invalid? || (d.Ok? && !d.destination.Hostname? && !Matches(d.destination.bytes, family)))
            && (r == Throws(DestinationBlocked) <==>
                  d.Refused? || (d.Ok? && d.destination.Hostname? && AnyBlocked(p, lookup(d.destination.text, family))))
            && (r == Throws(ResolutionFailed) <==>
                  d.Ok? && d.destination.Hostname? && lookup(d.destination.text, family) == [])
  {
  }

  // ----- the answers of a traceroute

  datatype Answer = Answered(response: Response) | Refusal(problem: Problem)

  /** The service with the blocklist of the policy that also guards its targets. */
  function ServiceOf(p: Policy, redact: bool, reverseDns: bool, maxHops: nat,
                     show: Address -> string, reverse: Address -> Option<string>): Service<Address> {
    Service(redact, reverseDns, maxHops, (a: Address) => Blocked(p.nets, a), show, reverse)
  }

  /** One traceroute from the input to the answer; `raw` is what the probe finds on the way to a target. */
  function Traceroute(p: Policy, v: Service<Address>, lookup: (string, Family) -> seq<Address>, input: string,
                      family: Family, raw: Address -> seq<RawHop<Address>>): Answer {
    match Resolve(p, v.show, lookup, input, family)
    case Throws(problem) => Refusal(problem)
    case Target(destination, address) => Answered(Respond(v, destination, address, raw(address)))
  }

  /** Non-interference for every answer the service gives: with redaction on, nothing of an answer depends
      on which blocked addresses appear at blocked hops. The reached flag is no exception, because no
      target is blocked. */
  lemma EveryAnswerHides(p: Policy, v: Service<Address>, lookup: (string, Family) -> seq<Address>, input: string,
                         family: Family, x: Address -> seq<RawHop<Address>>,
                         y: Address -> seq<RawHop<Address>>)
    requires v == ServiceOf(p, true, v.reverseDns, v.maxHops, v.show, v.reverse)
    requires forall target :: SameButBlocked(v, x(target), y(target))
    ensures Traceroute(p, v, lookup, input, family, x) == Traceroute(p, v, lookup, input, family, y)
  {
    var r := Resolve(p, v.show, lookup, input, family);
    if r.Target? {
      TargetIsPublic(p, v.show, lookup, input, family);
      RedactionHides(v, r.destination, r.address, x(r.address), y(r.address));
    }
  }
}
