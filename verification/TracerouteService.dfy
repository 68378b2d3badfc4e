/** How the service turns a raw trace into what a visitor sees
    (src/Diagnostics/Services/DiagnosticsService.cs): reverse lookups of public hops, redaction of
    private ones, and the rendered text. Addresses are of any type; the blocklist, the text of an
    address and the reverse lookup are functions of the address. */
module TracerouteService {
  import opened Options
  import opened Text
  import opened Numerals
  import opened TextRenderer

  datatype RawHop<A> = RawHop(number: nat, address: Option<A>, rtts: seq<Rtt>)

  datatype Service<!A> = Service(
    redactPrivateHops: bool,
    reverseDns: bool,
    maxHops: nat,
    blocked: A -> bool,
    show: A -> string,
    reverse: A -> Option<string>)

  function Addresses<A>(raw: seq<RawHop<A>>): seq<A> {
    if raw == [] then []
    else
      var front := Addresses(raw[..|raw| - 1]);
      if raw[|raw| - 1].address.Some? then front + [raw[|raw| - 1].address.value] else front
  }

  function Distinct<A(==)>(s: seq<A>): seq<A> {
    if s == [] then []
    else
      var front := Distinct(s[..|s| - 1]);
      if s[|s| - 1] in front then front else front + [s[|s| - 1]]
  }

  function Unblocked<A>(v: Service<A>, s: seq<A>): seq<A> {
    if s == [] then []
    else
      var front := Unblocked(v, s[..|s| - 1]);
      if v.blocked(s[|s| - 1]) then front else front + [s[|s| - 1]]
  }

  /** The addresses that are looked up, in order. */
  function LookedUp<A(==)>(v: Service<A>, raw: seq<RawHop<A>>): seq<A> {
    if v.reverseDns then Unblocked(v, Distinct(Addresses(raw))) else []
  }

  predicate IsBlank(s: string) { All(s, IsSpace) }

  /** The names found: blank answers are dropped. */
  function Names<A(==)>(v: Service<A>, raw: seq<RawHop<A>>): map<A, string> {
    map a | a in LookedUp(v, raw) && v.reverse(a).Some? && !IsBlank(v.reverse(a).value) :: v.reverse(a).value
  }

  datatype Presented = Presented(redacted: bool, address: Option<string>, hostname: Option<string>)

  function Present<A(==)>(v: Service<A>, names: map<A, string>, address: Option<A>): Presented {
    if address.None? then Presented(false, None, None)
    else if v.redactPrivateHops && v.blocked(address.value) then Presented(true, None, None)
    else Presented(false, Some(v.show(address.value)), if address.value in names then Some(names[address.value]) else None)
  }

  predicate AnyRtt(rtts: seq<Rtt>) { exists i :: 0 <= i < |rtts| && rtts[i].Some? }

  function SumRtts(rtts: seq<Rtt>): real {
    if rtts == [] then 0.0 else (if rtts[0].Some? then rtts[0].value else 0.0) + SumRtts(rtts[1..])
  }

  function CountRtts(rtts: seq<Rtt>): nat {
    if rtts == [] then 0 else (if rtts[0].Some? then 1 else 0) + CountRtts(rtts[1..])
  }

  /** The mean of the times there are, rounded to three decimals. */
  function Average(rtts: seq<Rtt>): Rtt {
    if CountRtts(rtts) > 0 then Some(Nearest(SumRtts(rtts) / CountRtts(rtts) as real * 1000.0) as real / 1000.0) else None
  }

  function HopOf<A(==)>(v: Service<A>, names: map<A, string>, h: RawHop<A>): Hop {
    var p := Present(v, names, h.address);
    Hop(h.number, h.address.Some? || AnyRtt(h.rtts), p.redacted, p.address, p.hostname, h.rtts)
  }

  function HopsOf<A(==)>(v: Service<A>, raw: seq<RawHop<A>>): (hops: seq<Hop>)
    ensures |hops| == |raw| && forall i :: 0 <= i < |raw| ==> hops[i] == HopOf(v, Names(v, raw), raw[i])
  {
    seq(|raw|, i requires 0 <= i < |raw| => HopOf(v, Names(v, raw), raw[i]))
  }

  function AveragesOf<A>(raw: seq<RawHop<A>>): (averages: seq<Rtt>)
    ensures |averages| == |raw| && forall i :: 0 <= i < |raw| ==> averages[i] == Average(raw[i].rtts)
  {
    seq(|raw|, i requires 0 <= i < |raw| => Average(raw[i].rtts))
  }

  datatype Response = Response(hops: seq<Hop>, averages: seq<Rtt>, reached: bool, text: string)

  function Respond<A(==)>(v: Service<A>, destination: string, target: A, raw: seq<RawHop<A>>): Response {
    var hops := HopsOf(v, raw);
    Response(
      hops,
      AveragesOf(raw),
      |raw| > 0 && raw[|raw| - 1].address == Some(target),
      Render(Label(destination, v.show(target)), hops, v.maxHops))
  }

  // ----- redaction hides the addresses

  /** Two traces that differ at most in which blocked address appears at a blocked hop. */
  predicate SameButBlocked<A(==)>(v: Service<A>, x: seq<RawHop<A>>, y: seq<RawHop<A>>) {
    && |x| == |y|
    && forall i :: 0 <= i < |x| ==>
         && x[i].number == y[i].number && x[i].rtts == y[i].rtts
         && (x[i].address == y[i].address
             || (x[i].address.Some? && y[i].address.Some? && v.blocked(x[i].address.value) && v.blocked(y[i].address.value)))
  }

  lemma UnblockedGlue<A>(v: Service<A>, s: seq<A>, a: A)
    ensures Unblocked(v, s + [a]) == if v.blocked(a) then Unblocked(v, s) else Unblocked(v, s) + [a]
  {
    assert (s + [a])[..|s|] == s;
  }

  lemma {:induction false} UnblockedMember<A>(v: Service<A>, s: seq<A>, a: A)
    ensures a in Unblocked(v, s) <==> a in s && !v.blocked(a)
  {
    if s != [] {
      UnblockedMember(v, s[..|s| - 1], a);
      assert s == s[..|s| - 1] + [s[|s| - 1]];
    }
  }

  lemma DistinctGlue<A>(s: seq<A>, a: A)
    ensures Distinct(s + [a]) == if a in Distinct(s) then Distinct(s) else Distinct(s) + [a]
  {
    assert (s + [a])[..|s|] == s;
  }

  /** Dropping duplicates and dropping blocked addresses commute. */
  lemma {:induction false} UnblockedDistinct<A>(v: Service<A>, s: seq<A>)
    ensures Unblocked(v, Distinct(s)) == Distinct(Unblocked(v, s))
  {
    if s != [] {
      var front, a := s[..|s| - 1], s[|s| - 1];
      UnblockedDistinct(v, front);
      UnblockedGlue(v, Distinct(front), a);
      UnblockedMember(v, Distinct(front), a);
      DistinctGlue(Unblocked(v, front), a);
    }
  }

  lemma {:induction false} SameUnblocked<A>(v: Service<A>, x: seq<RawHop<A>>, y: seq<RawHop<A>>)
    requires SameButBlocked(v, x, y)
    ensures Unblocked(v, Addresses(x)) == Unblocked(v, Addresses(y))
  {
    if x != [] {
      var n := |x| - 1;
      SameUnblocked(v, x[..n], y[..n]);
      if x[n].address.Some? {
        UnblockedGlue(v, Addresses(x[..n]), x[n].address.value);
        UnblockedGlue(v, Addresses(y[..n]), y[n].address.value);
      } else {
        assert Addresses(x) == Addresses(x[..n]) && Addresses(y) == Addresses(y[..n]);
      }
    }
  }

  /** The reverse lookups do not depend on blocked addresses: the resolver is asked the same. */
  lemma LookupsAgree<A>(v: Service<A>, x: seq<RawHop<A>>, y: seq<RawHop<A>>)
    requires SameButBlocked(v, x, y)
    ensures LookedUp(v, x) == LookedUp(v, y) && Names(v, x) == Names(v, y)
  {
    SameUnblocked(v, x, y);
    UnblockedDistinct(v, Addresses(x));
    UnblockedDistinct(v, Addresses(y));
  }

  /** Non-interference: with redaction on, two traces that differ only in which blocked addresses appear
      at blocked hops give the same hop records, averages and text, and, for a target that is not
      blocked, the same answer on whether it was reached. */
  lemma RedactionHides<A>(v: Service<A>, destination: string, target: A, x: seq<RawHop<A>>, y: seq<RawHop<A>>)
    requires v.redactPrivateHops && SameButBlocked(v, x, y)
    ensures var a, b := Respond(v, destination, target, x), Respond(v, destination, target, y);
            && a.hops == b.hops && a.averages == b.averages && a.text == b.text
            && (!v.blocked(target) ==> a == b)
  {
    SameHops(v, x, y);
    SameAverages(v, x, y);
    if !v.blocked(target) && x != [] {
      SameReached(v, target, x, y);
    }
  }

  lemma SameAverages<A>(v: Service<A>, x: seq<RawHop<A>>, y: seq<RawHop<A>>)
    requires SameButBlocked(v, x, y)
    ensures AveragesOf(x) == AveragesOf(y)
  {
  }

  lemma SameReached<A>(v: Service<A>, target: A, x: seq<RawHop<A>>, y: seq<RawHop<A>>)
    requires SameButBlocked(v, x, y) && !v.blocked(target) && x != []
    ensures x[|x| - 1].address == Some(target) <==> y[|y| - 1].address == Some(target)
  {
  }

  lemma SameHops<A>(v: Service<A>, x: seq<RawHop<A>>, y: seq<RawHop<A>>)
    requires v.redactPrivateHops && SameButBlocked(v, x, y)
    ensures HopsOf(v, x) == HopsOf(v, y)
  {
    LookupsAgree(v, x, y);
    forall i | 0 <= i < |x|
      ensures HopsOf(v, x)[i] == HopsOf(v, y)[i]
    {
      assert HopOf(v, Names(v, x), x[i]) == HopOf(v, Names(v, y), y[i]);
    }
  }

  /** A trace to a blocked target would tell whether it was reached. */
  lemma BlockedTargetLeaks<A>(v: Service<A>, destination: string, target: A, other: A)
      returns (x: seq<RawHop<A>>, y: seq<RawHop<A>>)
    requires v.blocked(target) && v.blocked(other) && other != target
    ensures SameButBlocked(v, x, y)
    ensures Respond(v, destination, target, x).reached && !Respond(v, destination, target, y).reached
  {
    x, y := [RawHop(1, Some(target), [])], [RawHop(1, Some(other), [])];
  }

  /** Whether no part of an answer for a target depends on which blocked addresses appear at blocked hops. */
  ghost predicate HidesFor<A(!new)>(v: Service<A>, destination: string, target: A) {
    forall x, y :: SameButBlocked(v, x, y) ==> Respond(v, destination, target, x) == Respond(v, destination, target, y)
  }

  /** That is so exactly for targets that are not blocked, as soon as there is another blocked address: the
      guard on targets (TargetResolver.dfy) is what redaction needs. */
  lemma HidesExactly<A(!new)>(v: Service<A>, destination: string, target: A, other: A)
    requires v.redactPrivateHops && v.blocked(other) && other != target
    ensures HidesFor(v, destination, target) <==> !v.blocked(target)
  {
    if v.blocked(target) {
      LeaksFor(v, destination, target, other);
    } else {
      HidesPublic(v, destination, target);
    }
  }

  lemma HidesPublic<A(!new)>(v: Service<A>, destination: string, target: A)
    requires v.redactPrivateHops && !v.blocked(target)
    ensures HidesFor(v, destination, target)
  {
    forall x, y | SameButBlocked(v, x, y)
      ensures Respond(v, destination, target, x) == Respond(v, destination, target, y)
    {
      RedactionHides(v, destination, target, x, y);
    }
  }

  lemma LeaksFor<A(!new)>(v: Service<A>, destination: string, target: A, other: A)
    requires v.blocked(target) && v.blocked(other) && other != target
    ensures !HidesFor(v, destination, target)
  {
    var x, y := BlockedTargetLeaks(v, destination, target, other);
  }

  /** Blocked addresses are never looked up and never named, redacted or not. */
  lemma BlockedNeverNamed<A>(v: Service<A>, raw: seq<RawHop<A>>, i: nat)
    requires i < |raw| && raw[i].address.Some? && v.blocked(raw[i].address.value)
    ensures raw[i].address.value !in LookedUp(v, raw) && HopsOf(v, raw)[i].hostname.None?
    ensures v.redactPrivateHops ==> HopsOf(v, raw)[i].redacted && HopsOf(v, raw)[i].address.None?
  {
    UnblockedMember(v, Distinct(Addresses(raw)), raw[i].address.value);
  }

  // ----- what the answer says

  lemma {:induction false} AddressesMember<A>(raw: seq<RawHop<A>>, a: A)
    ensures a in Addresses(raw) <==> exists i :: 0 <= i < |raw| && raw[i].address == Some(a)
  {
    if raw != [] {
      var n := |raw| - 1;
      AddressesMember(raw[..n], a);
      assert forall i :: 0 <= i < n ==> raw[..n][i] == raw[i];
    }
  }

  lemma {:induction false} DistinctMember<A>(s: seq<A>, a: A)
    ensures a in Distinct(s) <==> a in s
  {
    if s != [] {
      DistinctMember(s[..|s| - 1], a);
      assert s == s[..|s| - 1] + [s[|s| - 1]];
    }
  }

  predicate NoneTwice<A(==)>(s: seq<A>) { forall i, j :: 0 <= i < j < |s| ==> s[i] != s[j] }

  lemma {:induction false} DistinctOnce<A>(s: seq<A>)
    ensures NoneTwice(Distinct(s))
  {
    if s != [] {
      DistinctOnce(s[..|s| - 1]);
    }
  }

  /** With lookups on, exactly the public addresses of the trace are looked up, each once. */
  lemma LooksUpOnce<A>(v: Service<A>, raw: seq<RawHop<A>>, a: A)
    ensures a in LookedUp(v, raw) <==>
      v.reverseDns && !v.blocked(a) && exists i :: 0 <= i < |raw| && raw[i].address == Some(a)
    ensures NoneTwice(LookedUp(v, raw))
  {
    UnblockedMember(v, Distinct(Addresses(raw)), a);
    DistinctMember(Addresses(raw), a);
    AddressesMember(raw, a);
    UnblockedDistinct(v, Addresses(raw));
    DistinctOnce(Unblocked(v, Addresses(raw)));
  }

  /** What a hop of the answer says of the hop of the trace: the same number and times; that it did not respond
      exactly if there is neither an address nor a time; the text of its address unless that is hidden; and its
      name exactly if lookups are on, the address is public and its name is not blank. */
  lemma HopMeans<A>(v: Service<A>, destination: string, target: A, raw: seq<RawHop<A>>, i: nat)
    requires i < |raw|
    ensures |Respond(v, destination, target, raw).hops| == |raw|
    ensures var h, r := Respond(v, destination, target, raw).hops[i], raw[i];
            && h.number == r.number && h.rtts == r.rtts
            && (!h.responded <==> r.address.None? && forall k :: 0 <= k < |r.rtts| ==> r.rtts[k].None?)
            && (h.redacted <==> r.address.Some? && v.redactPrivateHops && v.blocked(r.address.value))
            && (h.address == if h.redacted || r.address.None? then None else Some(v.show(r.address.value)))
            && (forall name :: h.hostname == Some(name) <==>
                  r.address.Some? && v.reverseDns && !v.blocked(r.address.value)
                  && v.reverse(r.address.value) == Some(name) && !IsBlank(name))
  {
    if raw[i].address.Some? {
      LooksUpOnce(v, raw, raw[i].address.value);
    }
  }

  /** The target is reached exactly if the last hop has its address; no other hop matters. */
  lemma ReachedMeans<A>(v: Service<A>, destination: string, target: A, front: seq<RawHop<A>>, last: RawHop<A>)
    ensures !Respond(v, destination, target, []).reached
    ensures Respond(v, destination, target, front + [last]).reached <==> last.address == Some(target)
  {
  }

  lemma {:induction false} TotalsGlue(a: seq<Rtt>, b: seq<Rtt>)
    ensures SumRtts(a + b) == SumRtts(a) + SumRtts(b) && CountRtts(a + b) == CountRtts(a) + CountRtts(b)
  {
    if a == [] {
      assert a + b == b;
    } else {
      TotalsGlue(a[1..], b);
      assert (a + b)[1..] == a[1..] + b;
    }
  }

  lemma {:induction false} CountMeans(rtts: seq<Rtt>)
    ensures CountRtts(rtts) == 0 <==> !AnyRtt(rtts)
  {
    if rtts != [] {
      CountMeans(rtts[1..]);
      if AnyRtt(rtts) {
        var k :| 0 <= k < |rtts| && rtts[k].Some?;
        assert k > 0 ==> rtts[1..][k - 1].Some?;
      }
      if AnyRtt(rtts[1..]) {
        var k :| 0 <= k < |rtts| - 1 && rtts[1..][k].Some?;
        assert rtts[k + 1].Some?;
      }
    }
  }

  /** The sum divided by the number, to the nearest thousandth. */
  predicate IsMean(average: real, rtts: seq<Rtt>) {
    && CountRtts(rtts) > 0
    && -0.0005 <= average - SumRtts(rtts) / CountRtts(rtts) as real <= 0.0005
    && (average * 1000.0).Floor as real == average * 1000.0
  }

  lemma AverageIsMean(rtts: seq<Rtt>)
    requires CountRtts(rtts) > 0
    ensures Average(rtts).Some? && IsMean(Average(rtts).value, rtts)
  {
    var n := Nearest(SumRtts(rtts) / CountRtts(rtts) as real * 1000.0);
    assert Average(rtts).value * 1000.0 == n as real;
  }

  /** The average of a hop: none exactly if there is no time, and otherwise the mean of the times there are, to the
      nearest thousandth. */
  lemma AverageMeans<A>(v: Service<A>, destination: string, target: A, raw: seq<RawHop<A>>, i: nat)
    requires i < |raw|
    ensures |Respond(v, destination, target, raw).averages| == |raw|
    ensures var average := Respond(v, destination, target, raw).averages[i];
            && (average.None? <==> !AnyRtt(raw[i].rtts))
            && (average.Some? ==> IsMean(average.value, raw[i].rtts))
  {
    var rtts := raw[i].rtts;
    assert Respond(v, destination, target, raw).averages[i] == Average(rtts);
    CountMeans(rtts);
    if CountRtts(rtts) > 0 {
      AverageIsMean(rtts);
    }
  }
}
