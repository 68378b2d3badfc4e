/** The hand-written IPv4 and IPv6 text parsers of the web client (src/Web/src/lib/validation.ts)
    and the address grammar they must agree with: section 3.2.2 of RFC 3986. */
module Addresses {
  import opened Options
  import opened Text
  import opened Numerals

  // ----- IPv4

  predicate IsOctetText(p: string) {
    1 <= |p| <= 3 && All(p, IsDigit) && !(|p| > 1 && p[0] == '0') && DecValue(p) <= 255
  }

  predicate ValidOctets(o: seq<int>) {
    |o| == 4 && forall i :: 0 <= i < 4 ==> 0 <= o[i] <= 255
  }

  predicate AllOctetTexts(parts: seq<string>) { forall i :: 0 <= i < |parts| ==> IsOctetText(parts[i]) }

  function OctetValues(parts: seq<string>): (o: seq<int>)
    requires AllOctetTexts(parts)
    ensures |o| == |parts| && forall i :: 0 <= i < |o| ==> o[i] == DecValue(parts[i])
  {
    seq(|parts|, i requires 0 <= i < |parts| => DecValue(parts[i]))
  }

  function ParseV4(s: string): (r: Option<seq<int>>)
    ensures r.Some? ==> ValidOctets(r.value)
  {
    var parts := Split(s, '.');
    if |parts| == 4 && AllOctetTexts(parts) then Some(OctetValues(parts)) else None
  }

  method ParseIPv4(input: string) returns (r: Option<seq<int>>)
    ensures r == ParseV4(input)
  {
    var parts := Split(input, '.');
    if |parts| != 4 {
      return None;
    }
    var octets := [];
    for i := 0 to 4
      invariant |octets| == i
      invariant forall k :: 0 <= k < i ==> IsOctetText(parts[k]) && octets[k] == DecValue(parts[k])
    {
      var part := parts[i];
      if !(1 <= |part| <= 3 && All(part, IsDigit)) || (|part| > 1 && part[0] == '0') {
        return None;
      }
      var n := DecValue(part);
      if n > 255 {
        return None;
      }
      octets := octets + [n];
    }
    assert octets == OctetValues(parts);
    return Some(octets);
  }

  /** The dotted-decimal text of an address: `IPv4address` of RFC 3986. */
  function Dotted(o: seq<int>): string
    requires ValidOctets(o)
  {
    Join([Dec(o[0]), Dec(o[1]), Dec(o[2]), Dec(o[3])], ".")
  }

  lemma OctetTexts(p: string)
    ensures IsOctetText(p) <==> exists n: nat :: n <= 255 && p == Dec(n)
    ensures IsOctetText(p) ==> p == Dec(DecValue(p))
  {
    if IsOctetText(p) {
      DecOfValue(p);
    }
    if n: nat :| n <= 255 && p == Dec(n) {
      OctetIsText(n);
    }
  }

  lemma OctetIsText(n: nat)
    requires n <= 255
    ensures IsOctetText(Dec(n)) && DecValue(Dec(n)) == n && Lacks(Dec(n), '.') && Lacks(Dec(n), ':')
  {
    DecRoundTrip(n);
    DecNoLeadingZero(n);
    OctetLength(n);
  }

  /** The octets in their order, with dots between them. */
  lemma DottedIs(o: seq<int>)
    requires ValidOctets(o)
    ensures Dotted(o) == Dec(o[0]) + "." + Dec(o[1]) + "." + Dec(o[2]) + "." + Dec(o[3])
  {
    var a, b, c, d := Dec(o[0]), Dec(o[1]), Dec(o[2]), Dec(o[3]);
    JoinFour(a, b, c, d, ".");
    assert a + "." + (b + "." + (c + "." + d)) == a + "." + b + "." + c + "." + d;
  }

  /** `parseIPv4` accepts exactly the dotted-decimal texts, each for the octets it spells; so it is a
      bijection between accepted texts and addresses. */
  lemma V4Exact(s: string, o: seq<int>)
    ensures ParseV4(s) == Some(o) <==> ValidOctets(o) && s == Dotted(o)
  {
    if ParseV4(s) == Some(o) {
      V4Sound(s);
    }
    if ValidOctets(o) && s == Dotted(o) {
      V4Complete(o);
    }
  }

  function Octets(o: seq<int>): (parts: seq<string>)
    requires ValidOctets(o)
    ensures |parts| == 4 && forall i :: 0 <= i < 4 ==> parts[i] == Dec(o[i])
  {
    [Dec(o[0]), Dec(o[1]), Dec(o[2]), Dec(o[3])]
  }

  lemma V4Sound(s: string)
    requires ParseV4(s).Some?
    ensures s == Dotted(ParseV4(s).value)
  {
    var parts, o := Split(s, '.'), ParseV4(s).value;
    JoinSplit(s, '.');
    forall i | 0 <= i < 4
      ensures parts[i] == Dec(o[i])
    {
      OctetTexts(parts[i]);
    }
    assert parts == Octets(o);
  }

  lemma V4Complete(o: seq<int>)
    requires ValidOctets(o)
    ensures ParseV4(Dotted(o)) == Some(o)
  {
    var parts := Octets(o);
    forall i | 0 <= i < 4
      ensures IsOctetText(parts[i]) && DecValue(parts[i]) == o[i] && Lacks(parts[i], '.')
    {
      OctetIsText(o[i]);
    }
    SplitJoin(parts, '.');
    assert OctetValues(parts) == o;
  }

  predicate InDotted(c: char) { IsDigit(c) || c == '.' }

  lemma JoinFour(a: string, b: string, c: string, d: string, sep: string)
    ensures Join([a, b, c, d], sep) == a + sep + (b + sep + (c + sep + d))
  {
    assert [a, b, c, d][1..] == [b, c, d] && [b, c, d][1..] == [c, d] && [c, d][1..] == [d];
    assert Join([c, d], sep) == c + sep + d;
    assert Join([b, c, d], sep) == b + sep + Join([c, d], sep);
  }

  lemma DottedShape(o: seq<int>)
    requires ValidOctets(o)
    ensures var s := Dotted(o);
            && All(s, InDotted) && 7 <= |s| <= 15 && !Lacks(s, '.') && Lacks(s, ':')
  {
    OctetIsText(o[0]);
    OctetIsText(o[1]);
    OctetIsText(o[2]);
    OctetIsText(o[3]);
    JoinFour(Dec(o[0]), Dec(o[1]), Dec(o[2]), Dec(o[3]), ".");
    assert Dotted(o)[|Dec(o[0])|] == '.';
  }

  // ----- IPv6: what the string operations find

  predicate ColonsAt(s: string, i: int) {
    0 <= i && i + 2 <= |s| && s[i] == ':' && s[i + 1] == ':'
  }

  /** `indexOf("::")` from position `k` on. */
  function FirstColons(s: string, k: nat): (i: int)
    requires k <= |s|
    ensures i == -1 || (k <= i && ColonsAt(s, i))
    ensures forall j :: k <= j && (i == -1 || j < i) ==> !ColonsAt(s, j)
    decreases |s| - k
  {
    if k == |s| then -1 else if ColonsAt(s, k) then k else FirstColons(s, k + 1)
  }

  /** `lastIndexOf("::")` before position `k`. */
  function LastColons(s: string, k: nat): (i: int)
    requires k <= |s|
    ensures i == -1 || (i < k && ColonsAt(s, i))
    ensures forall j :: j < k && i < j ==> !ColonsAt(s, j)
  {
    if k == 0 then -1 else if ColonsAt(s, k - 1) then k - 1 else LastColons(s, k - 1)
  }

  /** `lastIndexOf(":")`. */
  function LastColon(s: string): (i: int)
    ensures -1 <= i < |s|
    ensures i >= 0 ==> s[i] == ':'
    ensures forall j :: i < j < |s| ==> s[j] != ':'
  {
    if s == [] then -1 else if s[|s| - 1] == ':' then |s| - 1 else LastColon(s[..|s| - 1])
  }

  predicate InV6(c: char) { IsHex(c) || c == ':' || c == '.' }

  /** `h16` of RFC 3986. */
  predicate IsH16(p: string) { 1 <= |p| <= 4 && All(p, IsHex) }

  predicate AllH16(parts: seq<string>) { forall i :: 0 <= i < |parts| ==> IsH16(parts[i]) }

  function Values(parts: seq<string>): (v: seq<int>)
    requires AllH16(parts)
    ensures |v| == |parts|
  {
    seq(|parts|, i requires 0 <= i < |parts| => HexValue(parts[i]))
  }

  function ToGroups(segment: string): Option<seq<int>> {
    if segment == "" then Some([])
    else if AllH16(Split(segment, ':')) then Some(Values(Split(segment, ':')))
    else None
  }

  function Zeros(n: nat): (z: seq<int>)
    ensures |z| == n
  {
    seq(n, i => 0)
  }

  /** The groups of the text in front of an embedded IPv4 address together with its two groups. */
  function Assemble(text: string, tail: seq<int>): Option<seq<int>> {
    var i := FirstColons(text, 0);
    if i >= 0 then Filled(ToGroups(text[..i]), ToGroups(text[i + 2..]), tail)
    else
      var head := ToGroups(text);
      if head.None? || |head.value| + |tail| != 8 then None else Some(head.value + tail)
  }

  /** Zeros between the groups on the two sides of the gap, at least one. */
  function Filled(head: Option<seq<int>>, rest: Option<seq<int>>, tail: seq<int>): (r: Option<seq<int>>)
    ensures r.Some? ==> |r.value| == 8
  {
    if head.None? || rest.None? then None
    else
      var missing := 8 - |head.value| - |rest.value| - |tail|;
      if missing < 1 then None else Some(head.value + Zeros(missing) + rest.value + tail)
  }

  function TailGroups(o: seq<int>): (t: seq<int>)
    requires ValidOctets(o)
    ensures |t| == 2
  {
    [o[0] * 256 + o[1], o[2] * 256 + o[3]]
  }

  /** The text before an IPv4 tail, without the single colon that ends it. */
  function WithoutColon(text: string): string {
    if EndsWith(text, ":") && !EndsWith(text, "::") then text[..|text| - 1] else text
  }

  /** What is left to read as colon-separated groups, and the groups of an IPv4 tail. */
  datatype Front = Front(text: string, tail: seq<int>)

  function FrontOf(s: string): Option<Front> {
    var k := LastColon(s);
    if Lacks(s[k + 1..], '.') then Some(Front(s, [])) else DottedFront(s[..k + 1], s[k + 1..])
  }

  function DottedFront(text: string, lastPart: string): Option<Front> {
    var v4 := ParseV4(lastPart);
    if v4.None? || WithoutColon(text) == "" then None else Some(Front(WithoutColon(text), TailGroups(v4.value)))
  }

  function ParseV6(s: string): Option<seq<int>> {
    if !All(s, InV6) || Lacks(s, ':') || FirstColons(s, 0) != LastColons(s, |s|) || FrontOf(s).None? then None
    else Assemble(FrontOf(s).value.text, FrontOf(s).value.tail)
  }

  method SegmentGroups(segment: string) returns (r: Option<seq<int>>)
    ensures r == ToGroups(segment)
  {
    if segment == "" {
      return Some([]);
    }
    var parts := Split(segment, ':');
    var groups := [];
    for i := 0 to |parts|
      invariant |groups| == i
      invariant forall k :: 0 <= k < i ==> IsH16(parts[k]) && groups[k] == HexValue(parts[k])
    {
      if !IsH16(parts[i]) {
        return None;
      }
      groups := groups + [HexValue(parts[i])];
    }
    assert groups == Values(parts);
    return Some(groups);
  }

  method ParseIPv6(input: string) returns (r: Option<seq<int>>)
    ensures r == ParseV6(input)
  {
    if !All(input, InV6) || Lacks(input, ':') {
      return None;
    }
    if FirstColons(input, 0) != LastColons(input, |input|) {
      return None;
    }
    var front := SplitTail(input);
    if front.None? {
      return None;
    }
    r := AssembleGroups(front.value.text, front.value.tail);
  }

  /** The first half of the parser: reads an IPv4 tail and cuts it off. */
  method SplitTail(input: string) returns (front: Option<Front>)
    ensures front == FrontOf(input)
  {
    var text, tail := input, [];
    var lastColon := LastColon(text);
    var lastPart := text[lastColon + 1..];
    FrontParts(text, text[..lastColon + 1], lastPart);
    if !Lacks(lastPart, '.') {
      var v4 := ParseIPv4(lastPart);
      if v4.None? {
        return None;
      }
      tail := [v4.value[0] * 256 + v4.value[1], v4.value[2] * 256 + v4.value[3]];
      text := text[..lastColon + 1];
      if EndsWith(text, ":") && !EndsWith(text, "::") {
        text := text[..|text| - 1];
      }
      if text == "" {
        return None;
      }
    }
    return Some(Front(text, tail));
  }

  /** The second half of the parser: splits at the gap, if there is one, and fills it with zeros. */
  method AssembleGroups(text: string, tail: seq<int>) returns (r: Option<seq<int>>)
    ensures r == Assemble(text, tail)
  {
    var groups;
    var i := FirstColons(text, 0);
    if i >= 0 {
      var head := SegmentGroups(text[..i]);
      var rest := SegmentGroups(text[i + 2..]);
      if head.None? || rest.None? {
        return None;
      }
      var missing := 8 - |head.value| - |rest.value| - |tail|;
      if missing < 1 {
        return None;
      }
      groups := head.value + Zeros(missing) + rest.value + tail;
      assert Filled(head, rest, tail) == Some(groups);
    } else {
      var head := SegmentGroups(text);
      if head.None? {
        return None;
      }
      groups := head.value + tail;
    }
    r := if |groups| == 8 then Some(groups) else None;
  }

  // ----- IPv6: the grammar

  /** A way to write an address: groups, perhaps a `::` and more groups, perhaps an IPv4 tail. */
  datatype Spelling = Spelling(left: seq<string>, gap: bool, right: seq<string>, dotted: seq<int>)

  function Width(sp: Spelling): nat {
    |sp.left| + |sp.right| + if sp.dotted == [] then 0 else 2
  }

  /** The nine alternatives of `IPv6address`: without `::`, six `h16` and an `ls32`; with it, any
      number of groups on either side as long as at least one group is left out. */
  predicate Legal(sp: Spelling) {
    && AllH16(sp.left) && AllH16(sp.right)
    && (sp.dotted == [] || ValidOctets(sp.dotted))
    && if sp.gap then Width(sp) <= 7 else sp.right == [] && Width(sp) == 8
  }

  function Tail(sp: Spelling): seq<string>
    requires Legal(sp)
  {
    if sp.dotted == [] then [] else [Dotted(sp.dotted)]
  }

  function Spelled(sp: Spelling): string
    requires Legal(sp)
  {
    if sp.gap then Join(sp.left, ":") + "::" + Join(sp.right + Tail(sp), ":") else Join(sp.left + Tail(sp), ":")
  }

  /** The eight 16-bit groups a spelling denotes. */
  function Denoted(sp: Spelling): (g: seq<int>)
    requires Legal(sp)
    ensures |g| == 8
  {
    Values(sp.left) + Zeros(8 - Width(sp)) + Values(sp.right) + (if sp.dotted == [] then [] else TailGroups(sp.dotted))
  }

  /** Group by group: the groups in front of the gap, zeros, the groups behind it, and the octets of the IPv4
      tail two by two. */
  lemma DenotedAt(sp: Spelling, i: nat)
    requires Legal(sp) && i < 8
    ensures var n, m, t := |sp.left|, |sp.right|, if sp.dotted == [] then 0 else 2;
            if i < n then Denoted(sp)[i] == HexValue(sp.left[i])
            else if i >= 8 - t then
              Denoted(sp)[i] == sp.dotted[2 * (i - 6)] * 256 + sp.dotted[2 * (i - 6) + 1]
            else if i >= 8 - t - m then Denoted(sp)[i] == HexValue(sp.right[i - (8 - t - m)])
            else Denoted(sp)[i] == 0
  {
    var tail := if sp.dotted == [] then [] else TailGroups(sp.dotted);
    var a, z, b := Values(sp.left), Zeros(8 - Width(sp)), Values(sp.right);
    assert Denoted(sp) == a + z + b + tail;
  }

  /** `::` stands for groups of zero: writing them out denotes the same address. */
  lemma GapIsZeros(sp: Spelling)
    requires Legal(sp) && sp.gap
    ensures var full := Spelling(sp.left + Repeated("0", 8 - Width(sp)) + sp.right, false, [], sp.dotted);
            Legal(full) && Denoted(full) == Denoted(sp)
  {
    var zeros := Repeated("0", 8 - Width(sp));
    var full := Spelling(sp.left + zeros + sp.right, false, [], sp.dotted);
    assert forall i :: 0 <= i < |zeros| ==> IsH16(zeros[i]);
    assert Legal(full);
    forall i: nat | i < 8
      ensures Denoted(full)[i] == Denoted(sp)[i]
    {
      ZeroValue();
      DenotedAt(full, i);
      DenotedAt(sp, i);
    }
  }

  function Repeated(s: string, n: nat): (parts: seq<string>)
    ensures |parts| == n && forall i :: 0 <= i < n ==> parts[i] == s
  {
    seq(n, i => s)
  }

  lemma ZeroValue()
    ensures HexValue("0") == 0
  {
    HexLeadingZero("");
  }

  // ----- IPv6: the shape of joined groups

  ghost predicate NoColons(s: string) { forall i :: !ColonsAt(s, i) }

  predicate InGroups(c: char) { IsHex(c) || c == ':' }

  lemma {:induction false} JoinedGroups(parts: seq<string>)
    requires AllH16(parts)
    ensures var s := Join(parts, ":");
            && All(s, InGroups) && NoColons(s)
            && (s == "" <==> parts == [])
            && (s != "" ==> s[0] != ':' && s[|s| - 1] != ':')
            && ToGroups(s) == Some(Values(parts))
            && |s| <= 5 * |parts|
            && (parts != [] ==> |s| <= 5 * |parts| - 1)
  {
    if parts == [] {
      assert Values(parts) == [];
    } else {
      SplitJoin(parts, ':');
      if |parts| == 1 {
        assert Join(parts, ":") == parts[0];
      } else {
        JoinedGroups(parts[1..]);
        JoinedTwo(parts[0], Join(parts[1..], ":"));
      }
    }
  }

  lemma JoinedTwo(a: string, b: string)
    requires IsH16(a) && All(b, InGroups) && NoColons(b) && b != "" && b[0] != ':' && b[|b| - 1] != ':'
    ensures var s := a + ":" + b;
            All(s, InGroups) && NoColons(s) && s[0] != ':' && s[|s| - 1] != ':'
  {
    var s := a + ":" + b;
    forall i
      ensures !ColonsAt(s, i)
    {
      assert !ColonsAt(b, i - |a| - 1);
    }
  }

  /** A segment the parser accepts is joined groups. */
  lemma GroupsSound(segment: string) returns (parts: seq<string>)
    requires ToGroups(segment).Some?
    ensures AllH16(parts) && Join(parts, ":") == segment && ToGroups(segment) == Some(Values(parts))
  {
    if segment == "" {
      parts := [];
      assert Values(parts) == [];
    } else {
      parts := Split(segment, ':');
      JoinSplit(segment, ':');
    }
  }

  // ----- IPv6: the text in front of an IPv4 tail

  function Body(left: seq<string>, gap: bool, right: seq<string>): string {
    if gap then Join(left, ":") + "::" + Join(right, ":") else Join(left, ":")
  }

  /** The only place in a body where two colons meet is the gap. */
  lemma BodyColons(left: seq<string>, gap: bool, right: seq<string>)
    requires AllH16(left) && AllH16(right) && (!gap ==> right == [])
    ensures var s := Body(left, gap, right);
            && All(s, InGroups)
            && (forall i :: ColonsAt(s, i) <==> gap && i == |Join(left, ":")|)
            && (s != "" && !(gap && right == []) ==> s[|s| - 1] != ':')
            && (s == "" <==> !gap && left == [])
            && |s| <= 5 * (|left| + |right|) + (if gap then 2 else 0)
  {
    JoinedGroups(left);
    JoinedGroups(right);
    var l, r, s := Join(left, ":"), Join(right, ":"), Body(left, gap, right);
    if gap {
      forall i
        ensures ColonsAt(s, i) <==> i == |l|
      {
        assert !ColonsAt(l, i) && !ColonsAt(r, i - |l| - 2);
      }
    }
  }

  function BodyGroups(left: seq<string>, gap: bool, right: seq<string>, tail: seq<int>): Option<seq<int>>
    requires AllH16(left) && AllH16(right)
  {
    var width := |left| + |right| + |tail|;
    if gap && width <= 7 then Some(Values(left) + Zeros(8 - width) + Values(right) + tail)
    else if !gap && width == 8 then Some(Values(left) + tail)
    else None
  }

  lemma AssembleBody(left: seq<string>, gap: bool, right: seq<string>, tail: seq<int>)
    requires AllH16(left) && AllH16(right) && (!gap ==> right == [])
    ensures Assemble(Body(left, gap, right), tail) == BodyGroups(left, gap, right, tail)
  {
    var s := Body(left, gap, right);
    BodyColons(left, gap, right);
    JoinedGroups(left);
    JoinedGroups(right);
    if gap {
      assert ColonsAt(s, |Join(left, ":")|);
      var i := FirstColons(s, 0);
      assert i == |Join(left, ":")|;
      assert s[..i] == Join(left, ":") && s[i + 2..] == Join(right, ":");
    } else {
      assert !ColonsAt(s, FirstColons(s, 0));
    }
  }

  /** Whatever the parser assembles is the body of some groups. */
  lemma AssembleSound(text: string, tail: seq<int>) returns (left: seq<string>, gap: bool, right: seq<string>)
    requires Assemble(text, tail).Some?
    ensures AllH16(left) && AllH16(right) && (!gap ==> right == [])
    ensures text == Body(left, gap, right) && Assemble(text, tail) == BodyGroups(left, gap, right, tail)
  {
    gap := FirstColons(text, 0) >= 0;
    if gap {
      left, right := GapSound(text, tail);
    } else {
      left := GroupsSound(text);
      right := [];
    }
    AssembleBody(left, gap, right, tail);
  }

  lemma GapSound(text: string, tail: seq<int>) returns (left: seq<string>, right: seq<string>)
    requires Assemble(text, tail).Some? && FirstColons(text, 0) >= 0
    ensures AllH16(left) && AllH16(right) && text == Body(left, true, right)
  {
    var i := FirstColons(text, 0);
    left := GroupsSound(text[..i]);
    right := GroupsSound(text[i + 2..]);
    assert text == text[..i] + "::" + text[i + 2..];
  }

  /** A spelling is its body, with the IPv4 tail, if any, after a colon or right after the gap. */
  function Separator(sp: Spelling): string {
    if sp.gap && sp.right == [] then "" else ":"
  }

  lemma SpelledBody(sp: Spelling)
    requires Legal(sp)
    ensures Spelled(sp) == Body(sp.left, sp.gap, sp.right) + if sp.dotted == [] then "" else Separator(sp) + Dotted(sp.dotted)
  {
    if sp.dotted == [] {
      assert sp.left + Tail(sp) == sp.left && sp.right + Tail(sp) == sp.right;
    } else {
      var d := Dotted(sp.dotted);
      assert Join([d], ":") == d;
      if sp.gap && sp.right == [] {
        assert sp.right + [d] == [d];
      } else if sp.gap {
        JoinGlue(sp.right, [d], ":");
      } else {
        JoinGlue(sp.left, [d], ":");
      }
    }
  }

  lemma {:induction false} LastColonBefore(b: string, d: string)
    requires Lacks(d, ':')
    ensures LastColon(b + ":" + d) == |b|
  {
    var s := b + ":" + d;
    if d != "" {
      LastColonBefore(b, d[..|d| - 1]);
      assert s[..|s| - 1] == b + ":" + d[..|d| - 1];
    }
  }

  lemma FrontOfSpelled(sp: Spelling)
    requires Legal(sp)
    ensures FrontOf(Spelled(sp)) == Some(Front(Body(sp.left, sp.gap, sp.right), if sp.dotted == [] then [] else TailGroups(sp.dotted)))
  {
    var b, s := Body(sp.left, sp.gap, sp.right), Spelled(sp);
    SpelledBody(sp);
    BodyColons(sp.left, sp.gap, sp.right);
    if sp.dotted == [] {
      assert s == b;
      FrontWithoutDots(b);
    } else {
      DottedShape(sp.dotted);
      V4Complete(sp.dotted);
      if sp.gap && sp.right == [] {
        assert b == Join(sp.left, ":") + "::";
        FrontAfterGap(Join(sp.left, ":"), Dotted(sp.dotted));
      } else {
        assert s == b + ":" + Dotted(sp.dotted);
        FrontAfterColon(b, Dotted(sp.dotted));
      }
    }
  }

  lemma FrontWithoutDots(b: string)
    requires All(b, InGroups)
    ensures FrontOf(b) == Some(Front(b, []))
  {
  }

  lemma FrontAfterGap(l: string, d: string)
    requires Lacks(d, ':') && !Lacks(d, '.') && ParseV4(d).Some?
    ensures FrontOf(l + "::" + d) == Some(Front(l + "::", TailGroups(ParseV4(d).value)))
  {
    var s := l + "::" + d;
    LastColonBefore(l + ":", d);
    assert s == l + ":" + ":" + d;
    assert s[..|l| + 2] == l + "::" && s[|l| + 2..] == d;
    assert EndsWith(l + "::", "::");
  }

  lemma FrontAfterColon(b: string, d: string)
    requires Lacks(d, ':') && !Lacks(d, '.') && ParseV4(d).Some? && b != "" && b[|b| - 1] != ':'
    ensures FrontOf(b + ":" + d) == Some(Front(b, TailGroups(ParseV4(d).value)))
  {
    var s := b + ":" + d;
    LastColonBefore(b, d);
    assert s[..|b| + 1] == b + ":" && s[|b| + 1..] == d;
    assert (b + ":")[|b| - 1] == b[|b| - 1];
    assert (b + ":")[|b| - 1..][0] != ':';
    assert (b + ":")[..|b|] == b;
  }

  lemma SpelledGuards(sp: Spelling)
    requires Legal(sp)
    ensures var s := Spelled(sp);
            All(s, InV6) && !Lacks(s, ':') && FirstColons(s, 0) == LastColons(s, |s|)
  {
    var s := Spelled(sp);
    SpelledColons(sp);
    SpelledHasColon(sp);
    var i, j := FirstColons(s, 0), LastColons(s, |s|);
    assert ColonsAt(s, i) <==> sp.gap && i == |Join(sp.left, ":")|;
    assert ColonsAt(s, j) <==> sp.gap && j == |Join(sp.left, ":")|;
    assert ColonsAt(s, |Join(sp.left, ":")|) <==> sp.gap;
  }

  lemma SpelledColons(sp: Spelling)
    requires Legal(sp)
    ensures All(Spelled(sp), InV6)
    ensures forall i :: ColonsAt(Spelled(sp), i) <==> sp.gap && i == |Join(sp.left, ":")|
  {
    var b, s := Body(sp.left, sp.gap, sp.right), Spelled(sp);
    SpelledBody(sp);
    BodyColons(sp.left, sp.gap, sp.right);
    if sp.dotted == [] {
      assert s == b;
    } else {
      DottedShape(sp.dotted);
      forall i
        ensures ColonsAt(s, i) <==> ColonsAt(b, i)
      {
      }
    }
  }

  lemma SpelledHasColon(sp: Spelling)
    requires Legal(sp)
    ensures !Lacks(Spelled(sp), ':')
  {
    var s := Spelled(sp);
    if sp.gap {
      assert s[|Join(sp.left, ":")|] == ':';
    } else {
      var parts := sp.left + Tail(sp);
      assert parts[0] == sp.left[0];
      assert s == parts[0] + ":" + Join(parts[1..], ":");
      assert s[|parts[0]|] == ':';
    }
  }

  /** No legal text is longer than 45 characters. */
  lemma SpelledLength(sp: Spelling)
    requires Legal(sp)
    ensures |Spelled(sp)| <= 45
  {
    SpelledBody(sp);
    JoinedGroups(sp.left);
    JoinedGroups(sp.right);
    if sp.dotted != [] {
      DottedShape(sp.dotted);
    }
  }

  function SpelledTail(sp: Spelling): seq<int>
    requires Legal(sp)
  {
    if sp.dotted == [] then [] else TailGroups(sp.dotted)
  }

  lemma AssembledDenotes(sp: Spelling)
    requires Legal(sp)
    ensures Assemble(Body(sp.left, sp.gap, sp.right), SpelledTail(sp)) == Some(Denoted(sp))
  {
    AssembleBody(sp.left, sp.gap, sp.right, SpelledTail(sp));
    BodyDenotes(sp);
  }

  lemma BodyDenotes(sp: Spelling)
    requires Legal(sp)
    ensures BodyGroups(sp.left, sp.gap, sp.right, SpelledTail(sp)) == Some(Denoted(sp))
  {
    if !sp.gap {
      assert Values(sp.right) == [];
      assert Values(sp.left) + Zeros(0) + [] + SpelledTail(sp) == Values(sp.left) + SpelledTail(sp);
    }
  }

  /** Every legal spelling of an address is read back as the groups it denotes. */
  lemma V6Complete(sp: Spelling)
    requires Legal(sp)
    ensures ParseV6(Spelled(sp)) == Some(Denoted(sp))
  {
    SpelledGuards(sp);
    FrontOfSpelled(sp);
    AssembledDenotes(sp);
  }

  /** Undoing the cut: which text was in front of the IPv4 tail. */
  lemma CutColon(front: string, left: seq<string>, gap: bool, right: seq<string>)
    requires AllH16(left) && AllH16(right) && (!gap ==> right == [])
    requires front != "" && front[|front| - 1] == ':' && WithoutColon(front) == Body(left, gap, right)
    ensures front == Body(left, gap, right) + if gap && right == [] then "" else ":"
  {
    BodyColons(left, gap, right);
    if gap && right == [] {
      assert Body(left, gap, right) == Join(left, ":") + "::";
      ColonsKept(Join(left, ":"), front);
    } else {
      ColonCut(Body(left, gap, right), front);
    }
  }

  lemma ColonsKept(l: string, front: string)
    requires WithoutColon(front) == l + "::"
    ensures front == l + "::"
  {
    var cut := l + "::" + ":";
    assert cut[|cut| - 2..] == "::";
    assert EndsWith(front, ":") ==> front == front[..|front| - 1] + ":";
  }

  lemma ColonCut(b: string, front: string)
    requires front != "" && front[|front| - 1] == ':' && WithoutColon(front) == b && (b == "" || b[|b| - 1] != ':')
    ensures front == b + ":"
  {
    assert EndsWith(front, ":");
    assert front == front[..|front| - 1] + ":";
  }

  lemma AssembledWidth(left: seq<string>, gap: bool, right: seq<string>, dotted: seq<int>)
    requires AllH16(left) && AllH16(right) && (!gap ==> right == [])
    requires dotted == [] || ValidOctets(dotted)
    requires BodyGroups(left, gap, right, if dotted == [] then [] else TailGroups(dotted)).Some?
    ensures Legal(Spelling(left, gap, right, dotted))
  {
  }

  /** A text with an IPv4 tail, taken apart. */
  lemma TailOf(s: string) returns (front: string, o: seq<int>)
    requires FrontOf(s).Some? && !Lacks(s, ':') && !Lacks(s[LastColon(s) + 1..], '.')
    ensures ValidOctets(o) && s == front + Dotted(o)
    ensures front != "" && front[|front| - 1] == ':' && WithoutColon(front) != ""
    ensures FrontOf(s).value == Front(WithoutColon(front), TailGroups(o))
  {
    HasLastColon(s);
    front := s[..LastColon(s) + 1];
    var last := s[LastColon(s) + 1..];
    FrontParts(s, front, last);
    o := DottedFrontMeans(front, last);
    assert s == front + last;
  }

  lemma DottedFrontMeans(text: string, lastPart: string) returns (o: seq<int>)
    requires DottedFront(text, lastPart).Some?
    ensures ValidOctets(o) && lastPart == Dotted(o) && WithoutColon(text) != ""
    ensures DottedFront(text, lastPart).value == Front(WithoutColon(text), TailGroups(o))
  {
    o := ParseV4(lastPart).value;
    V4Sound(lastPart);
  }

  lemma HasLastColon(s: string)
    requires !Lacks(s, ':')
    ensures LastColon(s) >= 0
  {
    if LastColon(s) == -1 {
      assert Lacks(s, ':');
    }
  }

  lemma SpellingWithTail(front: string, o: seq<int>) returns (sp: Spelling)
    requires ValidOctets(o) && front != "" && front[|front| - 1] == ':'
    requires Assemble(WithoutColon(front), TailGroups(o)).Some?
    ensures Legal(sp) && Spelled(sp) == front + Dotted(o)
  {
    var left, gap, right := AssembleSound(WithoutColon(front), TailGroups(o));
    AssembledWidth(left, gap, right, o);
    CutColon(front, left, gap, right);
    sp := Spelling(left, gap, right, o);
    SpelledWithTail(sp, front);
  }

  lemma SpelledWithTail(sp: Spelling, front: string)
    requires Legal(sp) && sp.dotted != [] && front == Body(sp.left, sp.gap, sp.right) + Separator(sp)
    ensures Spelled(sp) == front + Dotted(sp.dotted)
  {
    SpelledBody(sp);
    var b, d := Body(sp.left, sp.gap, sp.right), Dotted(sp.dotted);
    assert b + (Separator(sp) + d) == b + Separator(sp) + d;
  }

  /** Every accepted text is a legal spelling of the groups it is read as. */
  lemma V6Sound(s: string) returns (sp: Spelling)
    requires ParseV6(s).Some?
    ensures Legal(sp) && Spelled(sp) == s && Some(Denoted(sp)) == ParseV6(s)
  {
    if Lacks(s[LastColon(s) + 1..], '.') {
      var left, gap, right := AssembleSound(s, []);
      AssembledWidth(left, gap, right, []);
      sp := Spelling(left, gap, right, []);
      SpelledBody(sp);
    } else {
      var front, o := TailOf(s);
      sp := SpellingWithTail(front, o);
    }
    V6Complete(sp);
  }

  ghost predicate Spells(s: string, g: seq<int>) {
    exists sp :: Legal(sp) && Spelled(sp) == s && Denoted(sp) == g
  }

  /** `parseIPv6` is the grammar: it accepts exactly the texts of the rule `IPv6address`, and returns
      the groups they denote. In particular no text denotes two addresses. */
  lemma V6Exact(s: string, g: seq<int>)
    ensures ParseV6(s) == Some(g) <==> Spells(s, g)
  {
    if ParseV6(s) == Some(g) {
      var sp := V6Sound(s);
    }
    if sp :| Legal(sp) && Spelled(sp) == s && Denoted(sp) == g {
      V6Complete(sp);
    }
  }

  predicate ValidGroups(g: seq<int>) {
    |g| == 8 && forall i :: 0 <= i < 8 ==> 0 <= g[i] < 0x10000
  }

  predicate Words(v: seq<int>) { forall i :: 0 <= i < |v| ==> 0 <= v[i] < 0x10000 }

  lemma ValuesInRange(parts: seq<string>)
    requires AllH16(parts)
    ensures Words(Values(parts))
  {
    forall i | 0 <= i < |parts|
      ensures 0 <= Values(parts)[i] < 0x10000
    {
      HexBound(parts[i]);
    }
  }

  lemma GroupsInRange(s: string)
    requires ParseV6(s).Some?
    ensures ValidGroups(ParseV6(s).value)
  {
    var sp := V6Sound(s);
    ValuesInRange(sp.left);
    ValuesInRange(sp.right);
    var tail := if sp.dotted == [] then [] else TailGroups(sp.dotted);
    assert Words(tail) && Words(Zeros(8 - Width(sp)));
    assert Words(Values(sp.left) + Zeros(8 - Width(sp)) + Values(sp.right) + tail);
  }

  /** Every address has a text: each of the 2^128 of them is the value of its full spelling. */
  lemma EveryAddressHasAText(g: seq<int>)
    requires ValidGroups(g)
    ensures exists s :: ParseV6(s) == Some(g)
  {
    var left := seq(8, i requires 0 <= i < 8 => Hex4(g[i]));
    var sp := Spelling(left, false, [], []);
    forall i | 0 <= i < 8
      ensures HexValue(left[i]) == g[i]
    {
      Hex4RoundTrip(g[i]);
    }
    V6Complete(sp);
    assert Denoted(sp) == g;
  }

  // ----- letter case

  lemma ColonsLower(s: string)
    ensures forall i :: ColonsAt(Lower(s), i) <==> ColonsAt(s, i)
    ensures forall i :: 0 <= i < |s| ==> (Lower(s)[i] == ':' <==> s[i] == ':') && (Lower(s)[i] == '.' <==> s[i] == '.')
    ensures All(Lower(s), InV6) <==> All(s, InV6)
  {
    assert forall i :: 0 <= i < |s| ==> Lower(s)[i] == LowerChar(s[i]) && (InV6(LowerChar(s[i])) <==> InV6(s[i]));
  }

  lemma FirstLower(s: string)
    ensures FirstColons(Lower(s), 0) == FirstColons(s, 0)
    ensures LastColons(Lower(s), |s|) == LastColons(s, |s|)
    ensures LastColon(Lower(s)) == LastColon(s)
  {
    ColonsLower(s);
    var i, j := FirstColons(Lower(s), 0), FirstColons(s, 0);
    assert ColonsAt(s, i) == ColonsAt(Lower(s), i) && ColonsAt(s, j) == ColonsAt(Lower(s), j);
    var k, l := LastColons(Lower(s), |s|), LastColons(s, |s|);
    assert ColonsAt(s, k) == ColonsAt(Lower(s), k) && ColonsAt(s, l) == ColonsAt(Lower(s), l);
  }

  lemma GroupsLower(segment: string)
    ensures ToGroups(Lower(segment)) == ToGroups(segment)
  {
    if segment == "" {
      assert Lower("") == "";
    } else {
      SplitLower(segment, ':');
      H16Lower(Split(segment, ':'));
    }
  }

  lemma H16Lower(parts: seq<string>)
    ensures AllH16(LowerAll(parts)) <==> AllH16(parts)
    ensures AllH16(parts) ==> Values(LowerAll(parts)) == Values(parts)
  {
    forall i | 0 <= i < |parts|
      ensures IsH16(LowerAll(parts)[i]) <==> IsH16(parts[i])
    {
      OneH16Lower(parts[i]);
    }
    if AllH16(parts) {
      forall i | 0 <= i < |parts|
        ensures HexValue(LowerAll(parts)[i]) == HexValue(parts[i])
      {
        HexLower(parts[i]);
      }
      assert Values(LowerAll(parts)) == Values(parts);
    }
  }

  lemma OneH16Lower(p: string)
    ensures IsH16(Lower(p)) <==> IsH16(p)
  {
    assert forall i :: 0 <= i < |p| ==> (IsHex(Lower(p)[i]) <==> IsHex(p[i]));
  }

  /** Only the place of the gap and the groups on either side of it matter. */
  lemma SameAssembly(a: string, b: string, tail: seq<int>)
    requires FirstColons(a, 0) == FirstColons(b, 0)
    requires var i := FirstColons(a, 0);
             if i < 0 then ToGroups(a) == ToGroups(b)
             else ToGroups(a[..i]) == ToGroups(b[..i]) && ToGroups(a[i + 2..]) == ToGroups(b[i + 2..])
    ensures Assemble(a, tail) == Assemble(b, tail)
  {
  }

  lemma SlicesLower(s: string, i: nat)
    requires i <= |s|
    ensures Lower(s)[..i] == Lower(s[..i]) && Lower(s)[i..] == Lower(s[i..])
  {
  }

  lemma AssembleLower(text: string, tail: seq<int>)
    ensures Assemble(Lower(text), tail) == Assemble(text, tail)
  {
    FirstLower(text);
    GroupsLower(text);
    var i := FirstColons(text, 0);
    if i >= 0 {
      SlicesLower(text, i);
      SlicesLower(text, i + 2);
      GroupsLower(text[..i]);
      GroupsLower(text[i + 2..]);
    }
    SameAssembly(Lower(text), text, tail);
  }

  lemma V4Lower(s: string)
    ensures ParseV4(Lower(s)) == ParseV4(s)
  {
    SplitLower(s, '.');
    var parts := Split(s, '.');
    forall i | 0 <= i < |parts|
      ensures IsOctetText(Lower(parts[i])) <==> IsOctetText(parts[i])
      ensures IsOctetText(parts[i]) ==> Lower(parts[i]) == parts[i]
    {
      OctetLower(parts[i]);
    }
    if AllOctetTexts(parts) {
      assert LowerAll(parts) == parts;
    } else {
      var i :| 0 <= i < |parts| && !IsOctetText(parts[i]);
      assert !IsOctetText(LowerAll(parts)[i]);
    }
  }

  lemma OctetLower(p: string)
    ensures All(Lower(p), IsDigit) <==> All(p, IsDigit)
    ensures All(p, IsDigit) ==> Lower(p) == p
    ensures IsOctetText(Lower(p)) <==> IsOctetText(p)
  {
    assert forall i :: 0 <= i < |p| ==> (IsDigit(Lower(p)[i]) <==> IsDigit(p[i]));
  }

  lemma CutLower(text: string)
    ensures WithoutColon(Lower(text)) == Lower(WithoutColon(text))
  {
    ColonsLower(text);
    var n := |text|;
    EndLower(text, ":");
    EndLower(text, "::");
    if n > 0 {
      SlicesLower(text, n - 1);
    }
  }

  lemma EndLower(text: string, colons: string)
    requires forall i :: 0 <= i < |colons| ==> colons[i] == ':'
    ensures EndsWith(Lower(text), colons) <==> EndsWith(text, colons)
  {
    if |colons| <= |text| {
      var k := |text| - |colons|;
      assert forall i :: 0 <= i < |colons| ==> Lower(text)[k..][i] == LowerChar(text[k..][i]);
      if EndsWith(Lower(text), colons) {
        assert forall i :: 0 <= i < |colons| ==> LowerChar(text[k..][i]) == ':';
        assert text[k..] == colons;
      }
      if EndsWith(text, colons) {
        assert Lower(text)[k..] == colons;
      }
    }
  }

  lemma FrontLower(s: string)
    ensures var f, g := FrontOf(s), FrontOf(Lower(s));
            if f.None? then g.None? else g == Some(Front(Lower(f.value.text), f.value.tail))
  {
    var before, last := s[..LastColon(s) + 1], s[LastColon(s) + 1..];
    FrontParts(s, before, last);
    FrontPartsLower(s, before, last);
    DotsLower(last);
    DottedFrontLower(before, last);
  }

  lemma FrontPartsLower(s: string, before: string, last: string)
    requires before == s[..LastColon(s) + 1] && last == s[LastColon(s) + 1..]
    ensures FrontOf(Lower(s)) == if Lacks(Lower(last), '.') then Some(Front(Lower(s), [])) else DottedFront(Lower(before), Lower(last))
  {
    FirstLower(s);
    SlicesLower(s, LastColon(s) + 1);
    FrontParts(Lower(s), Lower(before), Lower(last));
  }

  lemma FrontParts(s: string, before: string, last: string)
    requires before == s[..LastColon(s) + 1] && last == s[LastColon(s) + 1..]
    ensures FrontOf(s) == if Lacks(last, '.') then Some(Front(s, [])) else DottedFront(before, last)
  {
  }

  lemma DottedFrontLower(text: string, lastPart: string)
    ensures var f, g := DottedFront(text, lastPart), DottedFront(Lower(text), Lower(lastPart));
            if f.None? then g.None? else g == Some(Front(Lower(f.value.text), f.value.tail))
  {
    V4Lower(lastPart);
    CutLower(text);
  }

  lemma DotsLower(s: string)
    ensures Lacks(Lower(s), '.') <==> Lacks(s, '.')
    ensures Lacks(Lower(s), ':') <==> Lacks(s, ':')
  {
    forall i | 0 <= i < |s|
      ensures (Lower(s)[i] == ':' <==> s[i] == ':') && (Lower(s)[i] == '.' <==> s[i] == '.')
    {
      assert Lower(s)[i] == LowerChar(s[i]);
    }
  }

  /** Letter case does not matter to the IPv6 parser. */
  lemma V6Lower(s: string)
    ensures ParseV6(Lower(s)) == ParseV6(s)
  {
    ColonsLower(s);
    DotsLower(s);
    FirstLower(s);
    FrontLower(s);
    if FrontOf(s).Some? {
      AssembleLower(FrontOf(s).value.text, FrontOf(s).value.tail);
    }
  }
}
