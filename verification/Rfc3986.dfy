/** The rule `IPv6address` of section 3.2.2 of RFC 3986, alternative by alternative, and the proof
    that the spellings of `Addresses` are exactly its words. */
module Rfc3986 {
  import opened Text
  import opened Addresses

  /** n( h16 ":" ) */
  ghost predicate Groups(n: nat, s: string) {
    if n == 0 then s == "" else exists h, t :: IsH16(h) && Groups(n - 1, t) && s == h + ":" + t
  }

  /** IPv4address */
  ghost predicate IPv4(s: string) {
    exists o :: ValidOctets(o) && s == Dotted(o)
  }

  /** ( h16 ":" h16 ) / IPv4address */
  ghost predicate Ls32(s: string) {
    || (exists a, b :: IsH16(a) && IsH16(b) && s == a + ":" + b)
    || IPv4(s)
  }

  /** [ *n( h16 ":" ) h16 ], and the empty string alone for n == -1 */
  ghost predicate Before(n: int, s: string) {
    s == "" || exists m: nat, a, h :: m <= n && Groups(m, a) && IsH16(h) && s == a + h
  }

  /** 6( h16 ":" ) ls32 */
  ghost predicate Uncompressed(s: string) {
    exists a, b :: Groups(6, a) && Ls32(b) && s == a + b
  }

  /** [ *5( h16 ":" ) h16 ] "::" h16 */
  ghost predicate OneAfter(s: string) {
    exists l, h :: Before(5, l) && IsH16(h) && s == l + "::" + h
  }

  /** [ *6( h16 ":" ) h16 ] "::" */
  ghost predicate NoneAfter(s: string) {
    exists l :: Before(6, l) && s == l + "::"
  }

  /** [ *k( h16 ":" ) h16 ] "::" (4 - k)( h16 ":" ) ls32 */
  ghost predicate Compressed(k: int, s: string)
    requires -1 <= k <= 4
  {
    exists l, a, b :: Before(k, l) && Groups(4 - k, a) && Ls32(b) && s == l + "::" + (a + b)
  }

  /** The nine alternatives; the second to the seventh are `Compressed` for -1 to 4. */
  ghost predicate IPv6address(s: string) {
    || Uncompressed(s)
    || (exists k :: -1 <= k <= 4 && Compressed(k, s))
    || OneAfter(s)
    || NoneAfter(s)
  }

  // ----- words of the parts of the rule as lists of pieces

  /** Each piece followed by a colon. */
  function Colonned(parts: seq<string>): string {
    if parts == [] then "" else parts[0] + ":" + Colonned(parts[1..])
  }

  lemma {:induction false} JoinSnoc(parts: seq<string>, last: string)
    ensures Join(parts + [last], ":") == Colonned(parts) + last
  {
    if parts != [] {
      JoinSnoc(parts[1..], last);
      assert (parts + [last])[1..] == parts[1..] + [last];
    } else {
      assert parts + [last] == [last];
    }
  }

  lemma {:induction false} ColonnedGlue(a: seq<string>, b: seq<string>)
    ensures Colonned(a + b) == Colonned(a) + Colonned(b)
  {
    if a == [] {
      assert a + b == b;
    } else {
      ColonnedGlue(a[1..], b);
      assert (a + b)[1..] == a[1..] + b;
    }
  }

  lemma {:induction false} GroupsParts(n: nat, s: string) returns (parts: seq<string>)
    requires Groups(n, s)
    ensures |parts| == n && AllH16(parts) && s == Colonned(parts)
  {
    if n == 0 {
      parts := [];
    } else {
      var h, t :| IsH16(h) && Groups(n - 1, t) && s == h + ":" + t;
      var rest := GroupsParts(n - 1, t);
      parts := [h] + rest;
      assert parts[1..] == rest;
    }
  }

  lemma {:induction false} PartsGroups(parts: seq<string>)
    requires AllH16(parts)
    ensures Groups(|parts|, Colonned(parts))
  {
    if parts != [] {
      PartsGroups(parts[1..]);
      assert IsH16(parts[0]) && Groups(|parts| - 1, Colonned(parts[1..]));
    }
  }

  lemma BeforeParts(n: int, s: string) returns (parts: seq<string>)
    requires Before(n, s) && n >= -1
    ensures |parts| <= n + 1 && AllH16(parts) && s == Join(parts, ":")
  {
    parts := [];
    if s != "" {
      var m: nat, a, h :| m <= n && Groups(m, a) && IsH16(h) && s == a + h;
      var lead := GroupsParts(m, a);
      parts := lead + [h];
      JoinSnoc(lead, h);
    }
  }

  lemma LeadBefore(n: int, m: nat, a: string, h: string, s: string)
    requires m <= n && Groups(m, a) && IsH16(h) && s == a + h
    ensures Before(n, s)
  {
  }

  lemma LastPiece(parts: seq<string>)
    requires parts != []
    ensures Join(parts, ":") == Colonned(parts[..|parts| - 1]) + parts[|parts| - 1]
  {
    var lead, last := parts[..|parts| - 1], parts[|parts| - 1];
    JoinSnoc(lead, last);
    assert lead + [last] == parts;
  }

  lemma PartsBefore(parts: seq<string>, n: int, s: string)
    requires AllH16(parts) && |parts| <= n + 1 && s == Join(parts, ":")
    ensures Before(n, s)
  {
    if parts != [] {
      var lead, h := parts[..|parts| - 1], parts[|parts| - 1];
      LastPiece(parts);
      PartsGroups(lead);
      LeadBefore(n, |lead|, Colonned(lead), h, s);
    }
  }

  /** The pieces of n( h16 ":" ) ls32: groups and perhaps an IPv4 address. */
  lemma TailParts(a: string, n: nat, b: string) returns (parts: seq<string>, dotted: seq<int>)
    requires Groups(n, a) && Ls32(b)
    ensures AllH16(parts) && (dotted == [] || ValidOctets(dotted)) && |parts| + (if dotted == [] then 0 else 2) == n + 2
    ensures a + b == Join(parts + (if dotted == [] then [] else [Dotted(dotted)]), ":")
  {
    var lead := GroupsParts(n, a);
    if IPv4(b) {
      var o :| ValidOctets(o) && b == Dotted(o);
      parts, dotted := lead, o;
      JoinSnoc(lead, b);
    } else {
      var x, y :| IsH16(x) && IsH16(y) && b == x + ":" + y;
      parts, dotted := lead + [x, y], [];
      ColonnedGlue(lead, [x]);
      assert Colonned([x]) == x + ":";
      JoinSnoc(lead + [x], y);
      assert parts + [] == lead + [x] + [y];
      assert a + b == a + (x + ":") + y;
    }
  }

  lemma PartsTail(parts: seq<string>, dotted: seq<int>) returns (a: string, b: string)
    requires AllH16(parts) && (dotted == [] || ValidOctets(dotted)) && |parts| + (if dotted == [] then 0 else 2) >= 2
    ensures Groups(|parts| + (if dotted == [] then 0 else 2) - 2, a) && Ls32(b)
    ensures a + b == Join(parts + (if dotted == [] then [] else [Dotted(dotted)]), ":")
  {
    if dotted != [] {
      a, b := Colonned(parts), Dotted(dotted);
      PartsGroups(parts);
      JoinSnoc(parts, b);
    } else {
      var n := |parts| - 2;
      var lead, x, y := parts[..n], parts[n], parts[n + 1];
      a, b := Colonned(lead), x + ":" + y;
      PartsGroups(lead);
      assert parts + [] == lead + [x] + [y];
      ColonnedGlue(lead, [x]);
      assert Colonned([x]) == x + ":";
      JoinSnoc(lead + [x], y);
      assert a + b == a + (x + ":") + y;
    }
  }

  ghost predicate IsSpelled(s: string) {
    exists sp :: Legal(sp) && Spelled(sp) == s
  }

  lemma FullIsSpelled(s: string, a: string, b: string)
    requires Groups(6, a) && Ls32(b) && s == a + b
    ensures IsSpelled(s)
  {
    var parts, dotted := TailParts(a, 6, b);
    assert Spelled(Spelling(parts, false, [], dotted)) == s;
  }

  lemma CompressedIsSpelled(k: int, s: string)
    requires -1 <= k <= 4 && Compressed(k, s)
    ensures IsSpelled(s)
  {
    var l, a, b :| Before(k, l) && Groups(4 - k, a) && Ls32(b) && s == l + "::" + (a + b);
    var left := BeforeParts(k, l);
    var right, dotted := TailParts(a, 4 - k, b);
    assert Spelled(Spelling(left, true, right, dotted)) == s;
  }

  lemma ShortTailIsSpelled(s: string, l: string, right: seq<string>)
    requires AllH16(right) && |right| <= 1 && Before(6 - |right|, l) && s == l + "::" + Join(right, ":")
    ensures IsSpelled(s)
  {
    var left := BeforeParts(6 - |right|, l);
    assert right + [] == right;
    assert Spelled(Spelling(left, true, right, [])) == s;
  }

  lemma RuleIsSpelled(s: string)
    requires IPv6address(s)
    ensures IsSpelled(s)
  {
    if Uncompressed(s) {
      var a, b :| Groups(6, a) && Ls32(b) && s == a + b;
      FullIsSpelled(s, a, b);
    } else if OneAfter(s) {
      var l, h :| Before(5, l) && IsH16(h) && s == l + "::" + h;
      ShortTailIsSpelled(s, l, [h]);
    } else if NoneAfter(s) {
      var l :| Before(6, l) && s == l + "::";
      ShortTailIsSpelled(s, l, []);
    } else {
      var k :| -1 <= k <= 4 && Compressed(k, s);
      CompressedIsSpelled(k, s);
    }
  }

  lemma FullIsUncompressed(sp: Spelling)
    requires Legal(sp) && !sp.gap
    ensures Uncompressed(Spelled(sp))
  {
    var a, b := PartsTail(sp.left, sp.dotted);
    assert Groups(6, a) && Ls32(b) && Spelled(sp) == a + b;
  }

  lemma WideIsCompressed(sp: Spelling)
    requires Legal(sp) && sp.gap && Width(sp) - |sp.left| >= 2
    ensures Compressed(6 - (Width(sp) - |sp.left|), Spelled(sp))
  {
    var a, b := PartsTail(sp.right, sp.dotted);
    PartsBefore(sp.left, 6 - (Width(sp) - |sp.left|), Join(sp.left, ":"));
  }

  lemma NarrowIsShort(sp: Spelling)
    requires Legal(sp) && sp.gap && sp.dotted == [] && |sp.right| <= 1
    ensures if sp.right == [] then NoneAfter(Spelled(sp)) else OneAfter(Spelled(sp))
  {
    var l := Join(sp.left, ":");
    PartsBefore(sp.left, 6 - |sp.right|, l);
    assert sp.right + [] == sp.right;
    assert Spelled(sp) == l + "::" + Join(sp.right, ":");
  }

  lemma SpelledIsRule(sp: Spelling)
    requires Legal(sp)
    ensures IPv6address(Spelled(sp))
  {
    if !sp.gap {
      FullIsUncompressed(sp);
    } else if Width(sp) - |sp.left| >= 2 {
      WideIsCompressed(sp);
    } else {
      NarrowIsShort(sp);
    }
  }

  /** `parseIPv6` accepts exactly the words of `IPv6address`. */
  lemma ParserIsRule(s: string)
    ensures ParseV6(s).Some? <==> IPv6address(s)
  {
    if ParseV6(s).Some? {
      var sp := V6Sound(s);
      SpelledIsRule(sp);
    }
    if IPv6address(s) {
      RuleIsSpelled(s);
      var sp :| Legal(sp) && Spelled(sp) == s;
      V6Complete(sp);
    }
  }
}
