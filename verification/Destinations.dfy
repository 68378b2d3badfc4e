/** What may be typed as a destination: the server's policy
    (src/Contracts/Networking/DestinationPolicy.cs) and the web client's validation
    (src/Web/src/lib/validation.ts). */
module Destinations {
  import opened Options
  import opened Text
  import opened Numerals
  import opened Addresses
  import opened IpBlocklist

  // ----- blocked names

  const DEFAULT_SUFFIXES: seq<string> := [
    "localhost", "local", "localdomain", "internal", "intranet", "private", "corp", "lan", "home", "home.arpa", "svc",
    "cluster.local", "in-addr.arpa", "ip6.arpa", "onion", "test", "invalid", "example"]

  const INTERNAL_SUFFIXES: seq<string> := [
    "localhost", "local", "internal", "localdomain", "lan", "home", "home.arpa", "corp", "intranet", "private", "svc",
    "cluster.local"]

  /** The string test both sides use: the suffix itself, or anything ending in a dot and the suffix. */
  predicate Under(name: string, suffix: string) {
    name == suffix || EndsWith(name, "." + suffix)
  }

  predicate NameIn(suffixes: seq<string>, name: string) {
    exists i :: 0 <= i < |suffixes| && Under(name, suffixes[i])
  }

  predicate IsDot(c: char) { c == '.' }

  function Normalised(suffix: string): string {
    Lower(TrimEnd(TrimStart(Trim(suffix), IsDot), IsDot))
  }

  function NormalisedAll(suffixes: seq<string>): seq<string> {
    if suffixes == [] then []
    else
      var rest := NormalisedAll(suffixes[..|suffixes| - 1]);
      var s := Normalised(suffixes[|suffixes| - 1]);
      if s == "" then rest else rest + [s]
  }

  /** The string test is the test on label lists: the suffix's labels end the name's labels. */
  lemma UnderIsLabelSuffix(name: string, suffix: string)
    ensures Under(name, suffix) <==> ListEndsWith(Split(name, '.'), Split(suffix, '.'))
  {
    if Under(name, suffix) && name != suffix {
      var front := name[..|name| - |suffix| - 1];
      assert name == front + ("." + suffix);
      BelowEnds(front, suffix);
    }
    if ListEndsWith(Split(name, '.'), Split(suffix, '.')) {
      EndsBelow(name, suffix);
    }
  }

  lemma BelowEnds(front: string, suffix: string)
    ensures ListEndsWith(Split(front + ("." + suffix), '.'), Split(suffix, '.'))
  {
    assert front + ("." + suffix) == front + ['.'] + suffix;
    SplitGlue(front, '.', suffix);
  }

  lemma GluedEnds(front: seq<string>, s: seq<string>)
    requires front != [] && s != []
    ensures EndsWith(Join(front + s, "."), "." + Join(s, "."))
  {
    JoinGlue(front, s, ".");
    var head, tail := Join(front, "."), "." + Join(s, ".");
    assert Join(front + s, ".") == head + tail;
    assert (head + tail)[|head|..] == tail;
  }

  lemma EndsBelow(name: string, suffix: string)
    requires ListEndsWith(Split(name, '.'), Split(suffix, '.'))
    ensures Under(name, suffix)
  {
    var n, s := Split(name, '.'), Split(suffix, '.');
    JoinSplit(name, '.');
    JoinSplit(suffix, '.');
    var front := n[..|n| - |s|];
    assert n == front + s;
    if front == [] {
      assert n == s;
    } else {
      GluedEnds(front, s);
    }
  }

  /** So whatever is below a blocked name is blocked. */
  lemma BlockedBelow(suffixes: seq<string>, name: string, part: string)
    requires NameIn(suffixes, name)
    ensures NameIn(suffixes, part + "." + name)
  {
    var i :| 0 <= i < |suffixes| && Under(name, suffixes[i]);
    var longer := part + "." + name;
    SplitGlue(part, '.', name);
    assert longer == part + ['.'] + name;
    UnderIsLabelSuffix(name, suffixes[i]);
    UnderIsLabelSuffix(longer, suffixes[i]);
    assert Under(longer, suffixes[i]);
  }

  // ----- the server

  /** `tryParse` is the runtime's parser of addresses. */
  datatype Policy = Policy(nets: seq<Net>, suffixes: seq<string>, tryParse: string -> Option<Address>)

  /** The default policy with configured additions. */
  function PolicyWith(nets: seq<Net>, suffixes: seq<string>, tryParse: string -> Option<Address>): Policy {
    Policy(DEFAULT_NETS + nets, NormalisedAll(DEFAULT_SUFFIXES + suffixes), tryParse)
  }

  datatype Destination = Address4(bytes: Address, text: string) | Address6(bytes: Address) | Hostname(text: string)

  datatype ParseResult = Ok(destination: Destination) | Invalid | Refused

  predicate IsControl(c: char) { c < ' ' || c == 127 as char || IsSpace(c) }

  predicate IsBeyondAscii(c: char) { c > '~' }

  predicate HasAny(s: string, p: char -> bool) { exists i :: 0 <= i < |s| && p(s[i]) }

  predicate IsUrlChar(c: char) { c == '/' || c == '\\' || c == '?' || c == '#' || c == '@' }

  predicate IsDigitOrDot(c: char) { IsDigit(c) || c == '.' }

  predicate IsLabelChar(c: char, underscore: bool) { IsAlnum(c) || c == '-' || (underscore && c == '_') }

  predicate IsValidLabel(part: string, underscore: bool) {
    && 1 <= |part| <= 63
    && part[0] != '-' && part[|part| - 1] != '-'
    && forall i :: 0 <= i < |part| ==> IsLabelChar(part[i], underscore)
  }

  predicate AllValidLabels(labels: seq<string>, underscore: bool) {
    forall i :: 0 <= i < |labels| ==> IsValidLabel(labels[i], underscore)
  }

  function CheckAddress(p: Policy, d: Destination): ParseResult
    requires !d.Hostname?
  {
    if Blocked(p.nets, d.bytes) then Refused else Ok(d)
  }

  function ParseV4Text(p: Policy, text: string): ParseResult {
    match ParseV4(text)
    case None => Invalid
    case Some(o) => CheckAddress(p, Address4(o, Dotted(o)))
  }

  function ParseV6Text(p: Policy, text: string): ParseResult {
    if |text| > 45 || !All(text, InV6) then Invalid
    else
      match p.tryParse(text)
      case None => Invalid
      case Some(a) => if |a| != 16 then Invalid else CheckAddress(p, Address6(a))
  }

  function ParseHostname(p: Policy, text: string, underscore: bool): ParseResult {
    if HasAny(text, IsBeyondAscii) then Invalid
    else
      var name := Lower(TrimEnd(text, IsDot));
      var labels := Split(name, '.');
      var tld := labels[|labels| - 1];
      if name == "" || |name| > 253 || !AllValidLabels(labels, underscore) then Invalid
      else if |labels| < 2 then Refused
      else if All(tld, IsDigit) || !Lacks(tld, '_') then Invalid
      else if NameIn(p.suffixes, name) then Refused
      else Ok(Hostname(name))
  }

  function Parse(p: Policy, input: string, underscore: bool): ParseResult {
    var text := Trim(input);
    if text == "" || |text| > 255 || HasAny(text, IsControl) || HasAny(text, IsUrlChar) then Invalid
    else if !Lacks(text, ':') then ParseV6Text(p, text)
    else if All(text, IsDigitOrDot) then ParseV4Text(p, text)
    else ParseHostname(p, text, underscore)
  }

  // ----- the web client

  datatype Family = AutoFamily | Ipv4Only | Ipv6Only

  datatype Verdict = Accepted(value: string, kind: Kind) | Rejected

  datatype Kind = KindV4 | KindV6 | KindName

  predicate IsShellChar(c: char) { c in ";|&$`<>(){}[]\\\"'*!~^%=," }

  predicate IsPathChar(c: char) { c == '/' || c == '?' || c == '#' || c == '@' }

  predicate IsPrintable(c: char) { ' ' <= c <= '~' }

  predicate IsSchemeChar(c: char) { IsAlnum(c) || c == '+' || c == '.' || c == '-' }

  /** A letter, scheme characters, a colon and something other than a colon. */
  predicate LooksLikeScheme(s: string) {
    s != "" && IsAlnum(s[0]) && !IsDigit(s[0])
    && exists k :: 0 < k && k + 1 < |s| && All(s[1..k], IsSchemeChar) && s[k] == ':' && s[k + 1] != ':'
  }

  predicate StartsAt(s: string, i: nat, t: string) { i + |t| <= |s| && s[i..i + |t|] == t }

  predicate HasScheme(s: string) {
    (exists i :: 0 <= i < |s| && StartsAt(s, i, "://")) || (LooksLikeScheme(s) && !All(s, InV6))
  }

  predicate IsWebLabelChar(c: char, underscore: bool) { IsLowerAlnum(c) || (underscore && c == '_') }

  predicate IsWebLabel(part: string, underscore: bool) {
    && 1 <= |part| <= 63
    && IsWebLabelChar(part[0], underscore) && IsWebLabelChar(part[|part| - 1], underscore)
    && forall i :: 0 <= i < |part| ==> IsWebLabelChar(part[i], underscore) || part[i] == '-'
  }

  predicate AllWebLabels(labels: seq<string>, underscore: bool) {
    forall i :: 0 <= i < |labels| ==> IsWebLabel(labels[i], underscore)
  }

  function ValidateName(input: string, underscore: bool): Verdict {
    var host := Lower(if EndsWith(input, ".") then input[..|input| - 1] else input);
    var labels := Split(host, '.');
    if host == "" || !AllWebLabels(labels, underscore) || All(labels[|labels| - 1], IsDigit)
       || NameIn(INTERNAL_SUFFIXES, host) || |labels| < 2
    then Rejected
    else Accepted(host, KindName)
  }

  function Validate(raw: string, family: Family, underscore: bool): Verdict {
    var input := Trim(raw);
    if input == "" || |input| > 253 || HasAny(input, IsSpace) || HasScheme(input) || HasAny(input, IsPathChar)
       || HasAny(input, IsShellChar) || !All(input, IsPrintable)
    then Rejected
    else if !Lacks(input, ':') then
      var groups := ParseV6(input);
      if groups.None? || |groups.value| != 8 || WebReason6(groups.value).Some? || family.Ipv4Only? then Rejected
      else Accepted(input, KindV6)
    else if All(input, IsDigitOrDot) then
      var octets := ParseV4(input);
      if octets.None? || WebReason4(octets.value).Some? || family.Ipv6Only? then Rejected
      else Accepted(input, KindV4)
    else ValidateName(input, underscore)
  }

  // ----- names that both sides read the same way

  predicate IsNameChar(c: char) { IsAlnum(c) || c == '-' || c == '_' || c == '.' }

  lemma NameChars(name: string, underscore: bool)
    requires AllValidLabels(Split(name, '.'), underscore)
    ensures All(name, IsNameChar)
  {
    JoinSplit(name, '.');
    JoinAll(Split(name, '.'), ".", IsNameChar);
  }

  lemma NoDotToTrim(s: string)
    requires s != "" && s[|s| - 1] != '.'
    ensures TrimEnd(s, IsDot) == s
  {
  }

  lemma LastLabel(name: string, underscore: bool)
    requires AllValidLabels(Split(name, '.'), underscore)
    ensures var labels := Split(name, '.'); var t := labels[|labels| - 1]; t != "" && t[|t| - 1] != '.'
  {
    PiecesLack(name, '.');
  }

  lemma NameEndsInLabel(name: string, underscore: bool)
    requires AllValidLabels(Split(name, '.'), underscore)
    ensures name != "" && TrimEnd(name, IsDot) == name
  {
    JoinSplit(name, '.');
    LastLabel(name, underscore);
    LastOfJoin(Split(name, '.'), ".");
    NoDotToTrim(name);
  }

  lemma NumericLabel(name: string)
    requires All(name, IsDigitOrDot)
    ensures var labels := Split(name, '.'); All(labels[|labels| - 1], IsDigit)
  {
    PiecesAll(name, '.', IsDigitOrDot);
    PiecesLack(name, '.');
  }

  lemma Unspaced(s: string)
    requires All(s, IsNameChar)
    ensures Trim(s) == s && !HasAny(s, IsControl) && !HasAny(s, IsUrlChar) && Lacks(s, ':') && !HasAny(s, IsBeyondAscii)
  {
    assert forall i :: 0 <= i < |s| ==> IsNameChar(s[i]);
  }

  /** A name in lower case with valid labels, at least two of them and the last not a number. */
  predicate IsName(name: string, underscore: bool) {
    var labels := Split(name, '.');
    && name == Lower(name) && |name| <= 253 && AllValidLabels(labels, underscore)
    && |labels| >= 2 && !All(labels[|labels| - 1], IsDigit)
  }

  /** The server's verdict on such a name. */
  function NameVerdict(p: Policy, name: string): ParseResult {
    if !Lacks(Split(name, '.')[|Split(name, '.')| - 1], '_') then Invalid
    else if NameIn(p.suffixes, name) then Refused
    else Ok(Hostname(name))
  }

  /** Such a name means the same to the server whichever way it got there. */
  lemma NameParses(p: Policy, name: string, underscore: bool)
    requires IsName(name, underscore)
    ensures Parse(p, name, underscore) == NameVerdict(p, name)
  {
    ParsedAsName(p, name, underscore);
    NameEndsInLabel(name, underscore);
    NameChars(name, underscore);
    Unspaced(name);
  }

  /** Valid labels, and a last one that is not a number, lead to the rules for names. */
  lemma ParsedAsName(p: Policy, name: string, underscore: bool)
    requires |name| <= 253 && AllValidLabels(Split(name, '.'), underscore)
    requires !All(Split(name, '.')[|Split(name, '.')| - 1], IsDigit)
    ensures Parse(p, name, underscore) == ParseHostname(p, name, underscore)
  {
    NameChars(name, underscore);
    NameEndsInLabel(name, underscore);
    if All(name, IsDigitOrDot) {
      NumericLabel(name);
    }
    Unspaced(name);
  }

  /** What the web client accepts as a name. */
  lemma AcceptedName(input: string, underscore: bool)
    requires ValidateName(input, underscore).Accepted?
    requires |input| <= 253
    ensures IsName(ValidateName(input, underscore).value, underscore)
  {
    LowerTwice(if EndsWith(input, ".") then input[..|input| - 1] else input);
  }

  /** What acceptance says about the trimmed input, kind by kind. */
  lemma AcceptedInput(raw: string, family: Family, underscore: bool)
    requires Validate(raw, family, underscore).Accepted?
    ensures var input, v := Trim(raw), Validate(raw, family, underscore);
            && 0 < |input| <= 253
            && match v.kind
               case KindV6 => v.value == input && !Lacks(input, ':') && ParseV6(input).Some?
               case KindV4 => v.value == input && All(input, IsDigitOrDot) && ParseV4(input).Some?
               case KindName => v == ValidateName(input, underscore)
  {
  }

  lemma AcceptedIsName(raw: string, family: Family, underscore: bool)
    requires Validate(raw, family, underscore).Accepted? && Validate(raw, family, underscore).kind.KindName?
    ensures IsName(Validate(raw, family, underscore).value, underscore)
  {
    AcceptedInput(raw, family, underscore);
    AcceptedName(Trim(raw), underscore);
  }

  /** For every policy: a name the web client accepts without underscores is never invalid to the server;
      it is either blocked as a name or accepted as the same text. */
  lemma NameAgreement(p: Policy, raw: string, family: Family)
    requires Validate(raw, family, false).Accepted? && Validate(raw, family, false).kind.KindName?
    ensures var v := Validate(raw, family, false).value;
            Parse(p, v, false) == if NameIn(p.suffixes, v) then Refused else Ok(Hostname(v))
  {
    AcceptedIsName(raw, family, false);
    PlainNameParses(p, Validate(raw, family, false).value);
  }

  lemma PlainNameParses(p: Policy, name: string)
    requires IsName(name, false)
    ensures Parse(p, name, false) == if NameIn(p.suffixes, name) then Refused else Ok(Hostname(name))
  {
    NameParses(p, name, false);
    var labels := Split(name, '.');
    assert IsValidLabel(labels[|labels| - 1], false);
  }

  /** With underscores allowed on both sides they disagree on exactly one point: the server refuses an
      underscore in the last label as invalid. */
  lemma UnderscoreAgreement(p: Policy, raw: string, family: Family)
    requires Validate(raw, family, true).Accepted? && Validate(raw, family, true).kind.KindName?
    ensures Parse(p, Validate(raw, family, true).value, true) == NameVerdict(p, Validate(raw, family, true).value)
  {
    AcceptedIsName(raw, family, true);
    NameParses(p, Validate(raw, family, true).value, true);
  }

  lemma UnderscoreCounterexample(p: Policy)
    ensures Validate("a._", AutoFamily, true) == Accepted("a._", KindName) && Parse(p, "a._", true) == Invalid
  {
    TwoLabels();
    assert "a._"[0] == 'a';
    PlainName("a._", AutoFamily, true);
    WebReadsTwoLabels();
    ServerReadsTwoLabels(p);
  }

  lemma ServerReadsTwoLabels(p: Policy)
    ensures Parse(p, "a._", true) == Invalid
  {
    TwoLabels();
    assert Lower("a._") == "a._";
    NameParses(p, "a._", true);
  }

  lemma WebReadsTwoLabels()
    ensures ValidateName("a._", true) == Accepted("a._", KindName)
  {
    var v := "a._";
    TwoLabels();
    NotInternal(v);
    assert Lower(v) == v;
    assert !EndsWith(v, ".");
  }

  lemma TwoLabels()
    ensures Split("a._", '.') == ["a", "_"]
  {
    assert "a._" == "a" + ['.'] + "_";
    SplitGlue("a", '.', "_");
    SplitWhole("a", '.');
    SplitWhole("_", '.');
  }

  lemma NameCharsAllowed(v: string)
    requires All(v, IsNameChar)
    ensures !HasAny(v, IsShellChar) && !HasAny(v, IsPathChar) && !HasAny(v, IsSpace) && All(v, IsPrintable)
  {
    forall i | 0 <= i < |v|
      ensures !IsShellChar(v[i])
    {
      assert IsNameChar(v[i]);
    }
  }

  lemma NoScheme(v: string)
    requires Lacks(v, ':')
    ensures !HasScheme(v)
  {
    forall i: nat | i + 3 <= |v|
      ensures !StartsAt(v, i, "://")
    {
      assert v[i..i + 3][0] == v[i];
    }
  }

  /** Only the name rules matter for a text of name characters. */
  lemma PlainName(v: string, family: Family, underscore: bool)
    requires All(v, IsNameChar) && 0 < |v| <= 253 && !All(v, IsDigitOrDot)
    ensures Validate(v, family, underscore) == ValidateName(v, underscore)
  {
    Unspaced(v);
    NameCharsAllowed(v);
    NoScheme(v);
  }

  lemma NotInternal(v: string)
    requires v == "a._"
    ensures !NameIn(INTERNAL_SUFFIXES, v)
  {
    forall i | 0 <= i < |INTERNAL_SUFFIXES|
      ensures |INTERNAL_SUFFIXES[i]| >= 3 && INTERNAL_SUFFIXES[i] != v
    {
    }
  }

  /** An IPv4 text the web client accepts is the server's own text for that address. */
  lemma V4Agreement(p: Policy, raw: string, family: Family, underscore: bool)
    requires Validate(raw, family, underscore).Accepted? && Validate(raw, family, underscore).kind.KindV4?
    ensures var v := Validate(raw, family, underscore).value;
            && ParseV4(v).Some?
            && Parse(p, v, underscore) == if Blocked(p.nets, ParseV4(v).value) then Refused else Ok(Address4(ParseV4(v).value, v))
  {
    AcceptedInput(raw, family, underscore);
    V4Parses(p, Trim(raw), underscore);
  }

  lemma V4Parses(p: Policy, v: string, underscore: bool)
    requires 0 < |v| <= 253 && All(v, IsDigitOrDot) && ParseV4(v).Some?
    ensures Parse(p, v, underscore) == if Blocked(p.nets, ParseV4(v).value) then Refused else Ok(Address4(ParseV4(v).value, v))
  {
    V4Exact(v, ParseV4(v).value);
    assert All(v, IsNameChar);
    Unspaced(v);
  }

  /** What a parser that follows the grammar says of a text: an address the text spells, or that it spells
      none. */
  ghost predicate IsRead(s: string, r: Option<Address>) {
    match r
    case Some(a) => exists g :: ValidGroups(g) && Spells(s, g) && ToBytes(g) == a
    case None => forall g :: !Spells(s, g)
  }

  /** The runtime's parser follows the grammar on hexadecimal digits, colons and dots. */
  ghost predicate ReadsGrammar(tryParse: string -> Option<Address>) {
    forall s :: All(s, InV6) && !Lacks(s, ':') ==> IsRead(s, tryParse(s))
  }

  /** Such a parser is the client's, because the client's is the grammar. */
  lemma SameReading(s: string, r: Option<Address>)
    requires IsRead(s, r)
    ensures r.Some? <==> ParseV6(s).Some?
    ensures r.Some? ==> ValidGroups(ParseV6(s).value) && r.value == ToBytes(ParseV6(s).value)
  {
    if r.Some? {
      var g :| ValidGroups(g) && Spells(s, g) && ToBytes(g) == r.value;
      V6Exact(s, g);
    } else if ParseV6(s).Some? {
      V6Exact(s, ParseV6(s).value);
    }
  }

  /** The two sides accept the same IPv6 texts: the server calls a text invalid exactly when the client
      finds no groups in it. */
  lemma SameV6Language(p: Policy, text: string)
    requires ReadsGrammar(p.tryParse) && !Lacks(text, ':')
    ensures ParseV6Text(p, text).Invalid? <==> ParseV6(text).None?
  {
    if ParseV6(text).Some? {
      V6Plain(text);
    }
    if All(text, InV6) {
      SameReading(text, p.tryParse(text));
    }
  }

  /** An IPv6 text the web client accepts is the same address to the server. */
  lemma V6Agreement(p: Policy, raw: string, family: Family, underscore: bool)
    requires Validate(raw, family, underscore).Accepted? && Validate(raw, family, underscore).kind.KindV6?
    requires ReadsGrammar(p.tryParse)
    ensures var v := Validate(raw, family, underscore).value;
            && ParseV6(v).Some? && ValidGroups(ParseV6(v).value)
            && Parse(p, v, underscore)
                 == if Blocked(p.nets, ToBytes(ParseV6(v).value)) then Refused else Ok(Address6(ToBytes(ParseV6(v).value)))
  {
    AcceptedInput(raw, family, underscore);
    GroupsInRange(Trim(raw));
    V6Parses(p, Trim(raw), underscore);
  }

  lemma V6Parses(p: Policy, v: string, underscore: bool)
    requires ReadsGrammar(p.tryParse) && !Lacks(v, ':') && ParseV6(v).Some? && ValidGroups(ParseV6(v).value)
    ensures Parse(p, v, underscore)
              == if Blocked(p.nets, ToBytes(ParseV6(v).value)) then Refused else Ok(Address6(ToBytes(ParseV6(v).value)))
  {
    V6Plain(v);
    SameReading(v, p.tryParse(v));
    assert Parse(p, v, underscore) == ParseV6Text(p, v);
  }

  lemma V6Plain(v: string)
    requires ParseV6(v).Some?
    ensures All(v, InV6) && 0 < |v| <= 45 && Trim(v) == v && !HasAny(v, IsControl) && !HasAny(v, IsUrlChar)
  {
    var sp := V6Sound(v);
    SpelledLength(sp);
    V6Unspaced(v);
  }

  lemma V6Unspaced(v: string)
    requires All(v, InV6)
    ensures Trim(v) == v && !HasAny(v, IsControl) && !HasAny(v, IsUrlChar)
  {
    assert forall i :: 0 <= i < |v| ==> InV6(v[i]);
  }

  // ----- what the server's list of suffixes comes to

  /** Exactly the trimmed, lower-case forms that are not empty are kept. */
  lemma {:induction false} NormalisedMember(suffixes: seq<string>, x: string)
    ensures x in NormalisedAll(suffixes) <==> x != "" && exists i :: 0 <= i < |suffixes| && Normalised(suffixes[i]) == x
  {
    if suffixes != [] {
      var n := |suffixes| - 1;
      NormalisedMember(suffixes[..n], x);
      assert forall i :: 0 <= i < n ==> suffixes[..n][i] == suffixes[i];
    }
  }

  predicate IsSuffixChar(c: char) { IsLowerAlnum(c) || c == '-' || c == '.' }

  predicate IsPlainSuffix(s: string) {
    s != "" && All(s, IsSuffixChar) && s[0] != '.' && s[|s| - 1] != '.'
  }

  lemma PlainSuffix(s: string)
    requires IsPlainSuffix(s)
    ensures Normalised(s) == s
  {
    assert IsSuffixChar(s[0]) && IsSuffixChar(s[|s| - 1]);
    assert Trim(s) == s;
    assert forall i :: 0 <= i < |s| ==> IsSuffixChar(s[i]);
    assert Lower(s) == s;
  }

  /** A suffix may be configured in any letter case, with dots and white space around it. */
  lemma SuffixIsNormalised(before: string, lead: string, s: string, trail: string, after: string)
    requires All(before, IsSpace) && All(lead, IsDot) && IsPlainSuffix(Lower(s)) && All(trail, IsDot) && All(after, IsSpace)
    ensures Normalised(before + lead + s + trail + after) == Lower(s)
  {
    var inner := lead + s + trail;
    assert Lower(s)[0] == LowerChar(s[0]) && Lower(s)[|s| - 1] == LowerChar(s[|s| - 1]);
    assert IsSuffixChar(Lower(s)[0]) && IsSuffixChar(Lower(s)[|s| - 1]);
    assert before + lead + s + trail + after == before + (inner + after);
    CutStart(before, inner + after, IsSpace);
    CutEnd(inner, after, IsSpace);
    assert inner == lead + (s + trail);
    CutStart(lead, s + trail, IsDot);
    CutEnd(s, trail, IsDot);
  }

  lemma {:induction false} CutStart(cut: string, s: string, p: char -> bool)
    requires All(cut, p) && s != "" && !p(s[0])
    ensures TrimStart(cut + s, p) == s
  {
    if cut == "" {
      assert cut + s == s;
    } else {
      CutStart(cut[1..], s, p);
      assert (cut + s)[1..] == cut[1..] + s;
    }
  }

  lemma {:induction false} CutEnd(s: string, cut: string, p: char -> bool)
    requires All(cut, p) && s != "" && !p(s[|s| - 1])
    ensures TrimEnd(s + cut, p) == s
  {
    if cut == "" {
      assert s + cut == s;
    } else {
      CutEnd(s, cut[..|cut| - 1], p);
      assert (s + cut)[..|s + cut| - 1] == s + cut[..|cut| - 1];
    }
  }

  /** The default suffixes are kept as they are. */
  lemma PlainDefaults(i: nat)
    requires i < |DEFAULT_SUFFIXES|
    ensures IsPlainSuffix(DEFAULT_SUFFIXES[i])
  {
  }

  predicate UnderConfigured(extra: seq<string>, name: string) {
    exists i :: 0 <= i < |extra| && Normalised(extra[i]) != "" && Under(name, Normalised(extra[i]))
  }

  /** Names are blocked under the default suffixes and under the configured ones, and no others. So a
      configured suffix never unblocks a name. */
  lemma BlockedNames(nets: seq<Net>, extra: seq<string>, tryParse: string -> Option<Address>, name: string)
    ensures NameIn(PolicyWith(nets, extra, tryParse).suffixes, name)
       <==> NameIn(DEFAULT_SUFFIXES, name) || UnderConfigured(extra, name)
  {
    var all := DEFAULT_SUFFIXES + extra;
    var kept := NormalisedAll(all);
    if NameIn(kept, name) {
      var k :| 0 <= k < |kept| && Under(name, kept[k]);
      NormalisedMember(all, kept[k]);
      var i :| 0 <= i < |all| && Normalised(all[i]) == kept[k];
      FromOneList(extra, i, name);
    }
    if NameIn(DEFAULT_SUFFIXES, name) {
      var i :| 0 <= i < |DEFAULT_SUFFIXES| && Under(name, DEFAULT_SUFFIXES[i]);
      PlainDefaults(i);
      PlainSuffix(DEFAULT_SUFFIXES[i]);
      KeptSuffix(all, i, name);
    }
    if UnderConfigured(extra, name) {
      var i :| 0 <= i < |extra| && Normalised(extra[i]) != "" && Under(name, Normalised(extra[i]));
      assert all[|DEFAULT_SUFFIXES| + i] == extra[i];
      KeptSuffix(all, |DEFAULT_SUFFIXES| + i, name);
    }
  }

  lemma FromOneList(extra: seq<string>, i: nat, name: string)
    requires i < |DEFAULT_SUFFIXES + extra|
    requires var s := Normalised((DEFAULT_SUFFIXES + extra)[i]); s != "" && Under(name, s)
    ensures NameIn(DEFAULT_SUFFIXES, name) || UnderConfigured(extra, name)
  {
    if i < |DEFAULT_SUFFIXES| {
      PlainDefaults(i);
      PlainSuffix(DEFAULT_SUFFIXES[i]);
      assert Under(name, DEFAULT_SUFFIXES[i]);
    } else {
      assert (DEFAULT_SUFFIXES + extra)[i] == extra[i - |DEFAULT_SUFFIXES|];
    }
  }

  lemma KeptSuffix(suffixes: seq<string>, i: nat, name: string)
    requires i < |suffixes| && Normalised(suffixes[i]) != "" && Under(name, Normalised(suffixes[i]))
    ensures NameIn(NormalisedAll(suffixes), name)
  {
    NormalisedMember(suffixes, Normalised(suffixes[i]));
    var k :| 0 <= k < |NormalisedAll(suffixes)| && NormalisedAll(suffixes)[k] == Normalised(suffixes[i]);
    assert Under(name, NormalisedAll(suffixes)[k]);
  }

  /** Where an internal suffix of the web client is on the server's default list. */
  function InternalPosition(i: nat): (k: nat)
    requires i < |INTERNAL_SUFFIXES|
    ensures k < |DEFAULT_SUFFIXES| && DEFAULT_SUFFIXES[k] == INTERNAL_SUFFIXES[i]
  {
    [0, 1, 3, 2, 7, 8, 9, 6, 4, 5, 10, 11][i]
  }

  /** Every internal name of the web client is blocked by every policy of the server. */
  lemma InternalNamesBlocked(nets: seq<Net>, extra: seq<string>, tryParse: string -> Option<Address>, name: string)
    requires NameIn(INTERNAL_SUFFIXES, name)
    ensures NameIn(PolicyWith(nets, extra, tryParse).suffixes, name)
  {
    var i: nat :| i < |INTERNAL_SUFFIXES| && Under(name, INTERNAL_SUFFIXES[i]);
    assert Under(name, DEFAULT_SUFFIXES[InternalPosition(i)]);
    BlockedNames(nets, extra, tryParse, name);
  }

  /** A host that passes the client's label rules. */
  predicate PassesLabels(host: string, underscore: bool) {
    var labels := Split(host, '.');
    host == Lower(host) && |host| <= 253 && AllWebLabels(labels, underscore) && !All(labels[|labels| - 1], IsDigit)
  }

  /** So whatever the client refuses as internal, the server refuses as blocked, with any configuration. */
  lemma InternalNamesRefused(nets: seq<Net>, extra: seq<string>, tryParse: string -> Option<Address>, host: string,
                             underscore: bool)
    requires PassesLabels(host, underscore) && NameIn(INTERNAL_SUFFIXES, host)
    ensures Parse(PolicyWith(nets, extra, tryParse), host, underscore) == Refused
  {
    var p := PolicyWith(nets, extra, tryParse);
    if |Split(host, '.')| < 2 {
      SingleLabelRefused(p, host, underscore);
    } else {
      InternalNamesBlocked(nets, extra, tryParse, host);
      InternalLastLabel(host);
      NameParses(p, host, underscore);
    }
  }

  lemma SingleLabelRefused(p: Policy, host: string, underscore: bool)
    requires PassesLabels(host, underscore) && |Split(host, '.')| < 2
    ensures Parse(p, host, underscore) == Refused
  {
    ParsedAsName(p, host, underscore);
    NameEndsInLabel(host, underscore);
    NameChars(host, underscore);
    Unspaced(host);
  }

  predicate IsNoUnderscore(c: char) { c != '_' }

  function LastPiece(s: string): string {
    Split(s, '.')[|Split(s, '.')| - 1]
  }

  lemma SharedLastPiece(name: string, suffix: string)
    requires Under(name, suffix)
    ensures LastPiece(name) == LastPiece(suffix)
  {
    UnderIsLabelSuffix(name, suffix);
    var n, s := Split(name, '.'), Split(suffix, '.');
    assert n[|n| - |s|..][|s| - 1] == n[|n| - 1];
  }

  lemma PlainLastPiece(suffix: string)
    requires IsPlainSuffix(suffix)
    ensures Lacks(LastPiece(suffix), '_')
  {
    assert forall j :: 0 <= j < |suffix| ==> IsSuffixChar(suffix[j]);
    assert All(suffix, IsNoUnderscore);
    PiecesAll(suffix, '.', IsNoUnderscore);
    var piece := LastPiece(suffix);
    assert forall j :: 0 <= j < |piece| ==> IsNoUnderscore(piece[j]);
  }

  lemma LastLabelUnder(host: string, suffix: string)
    requires Under(host, suffix) && IsPlainSuffix(suffix)
    ensures Lacks(LastPiece(host), '_')
  {
    SharedLastPiece(host, suffix);
    PlainLastPiece(suffix);
  }

  lemma InternalLastLabel(host: string)
    requires NameIn(INTERNAL_SUFFIXES, host)
    ensures Lacks(LastPiece(host), '_')
  {
    var i: nat :| i < |INTERNAL_SUFFIXES| && Under(host, INTERNAL_SUFFIXES[i]);
    PlainDefaults(InternalPosition(i));
    LastLabelUnder(host, INTERNAL_SUFFIXES[i]);
  }

  // ----- fixed points

  /** Reading an accepted hostname again gives the same hostname. */
  lemma HostnameIsFixedPoint(p: Policy, input: string, underscore: bool)
    requires Parse(p, input, underscore).Ok? && Parse(p, input, underscore).destination.Hostname?
    ensures Parse(p, Parse(p, input, underscore).destination.text, underscore) == Parse(p, input, underscore)
  {
    LowerTwice(TrimEnd(Trim(input), IsDot));
    NameParses(p, Parse(p, input, underscore).destination.text, underscore);
  }

  lemma V4IsFixedPoint(p: Policy, input: string, underscore: bool)
    requires Parse(p, input, underscore).Ok? && Parse(p, input, underscore).destination.Address4?
    ensures Parse(p, Parse(p, input, underscore).destination.text, underscore) == Parse(p, input, underscore)
  {
    var text := Trim(input);
    V4Exact(text, ParseV4(text).value);
    DottedShape(ParseV4(text).value);
    V4Parses(p, text, underscore);
  }

  // ----- the object

  class DestinationPolicy {
    const networks: seq<Net>
    const suffixes: seq<string>
    const tryParse: string -> Option<Address>

    constructor (nets: seq<Net>, extra: seq<string>, tryParse: string -> Option<Address>)
      ensures View() == PolicyWith(nets, extra, tryParse)
    {
      var all := DEFAULT_SUFFIXES + extra;
      var kept := [];
      for i := 0 to |all|
        invariant kept == NormalisedAll(all[..i])
      {
        assert all[..i + 1][..i] == all[..i];
        var s := Normalised(all[i]);
        if s != "" {
          kept := kept + [s];
        }
      }
      assert all[..|all|] == all;
      networks := DEFAULT_NETS + nets;
      suffixes := kept;
      this.tryParse := tryParse;
    }

    function View(): Policy {
      Policy(networks, suffixes, tryParse)
    }

    method IsBlockedName(name: string) returns (blocked: bool)
      ensures blocked <==> NameIn(suffixes, name)
    {
      for i := 0 to |suffixes|
        invariant forall k :: 0 <= k < i ==> !Under(name, suffixes[k])
      {
        if name == suffixes[i] || EndsWith(name, "." + suffixes[i]) {
          return true;
        }
      }
      return false;
    }

    method ParseIpv4(text: string) returns (r: ParseResult)
      requires All(text, IsDigitOrDot)
      ensures r == ParseV4Text(View(), text)
    {
      var parts := Split(text, '.');
      if |parts| != 4 {
        return Invalid;
      }
      PiecesAll(text, '.', IsDigitOrDot);
      PiecesLack(text, '.');
      var octets := new int[4];
      for i := 0 to 4
        invariant forall k :: 0 <= k < i ==> IsOctetText(parts[k]) && octets[k] == DecValue(parts[k])
      {
        var part := parts[i];
        assert All(part, IsDigit);
        if |part| == 0 || |part| > 3 || (|part| > 1 && part[0] == '0') || DecValue(part) > 255 {
          return Invalid;
        }
        octets[i] := DecValue(part);
      }
      assert octets[..] == OctetValues(parts);
      r := CheckAddress(View(), Address4(octets[..], Dotted(octets[..])));
    }

    method ParseIpv6(text: string) returns (r: ParseResult)
      ensures r == ParseV6Text(View(), text)
    {
      if |text| > 45 || !All(text, InV6) {
        return Invalid;
      }
      var address := tryParse(text);
      if address.None? || |address.value| != 16 {
        return Invalid;
      }
      r := CheckAddress(View(), Address6(address.value));
    }

    static method ValidLabel(part: string, underscore: bool) returns (valid: bool)
      ensures valid <==> IsValidLabel(part, underscore)
    {
      if |part| == 0 || |part| > 63 {
        return false;
      }
      if part[0] == '-' || part[|part| - 1] == '-' {
        return false;
      }
      for i := 0 to |part|
        invariant forall k :: 0 <= k < i ==> IsLabelChar(part[k], underscore)
      {
        var c := part[i];
        if !(IsAlnum(c) || c == '-' || (underscore && c == '_')) {
          return false;
        }
      }
      return true;
    }

    method ParseName(text: string, underscore: bool) returns (r: ParseResult)
      ensures r == ParseHostname(View(), text, underscore)
    {
      if HasAny(text, IsBeyondAscii) {
        return Invalid;
      }
      var name := Lower(TrimEnd(text, IsDot));
      if |name| == 0 || |name| > 253 {
        return Invalid;
      }
      var labels := Split(name, '.');
      for i := 0 to |labels|
        invariant forall k :: 0 <= k < i ==> IsValidLabel(labels[k], underscore)
      {
        var valid := ValidLabel(labels[i], underscore);
        if !valid {
          return Invalid;
        }
      }
      if |labels| < 2 {
        return Refused;
      }
      var tld := labels[|labels| - 1];
      if All(tld, IsDigit) || !Lacks(tld, '_') {
        return Invalid;
      }
      var blocked := IsBlockedName(name);
      r := if blocked then Refused else Ok(Hostname(name));
    }

    method ParseInput(input: string, underscore: bool) returns (r: ParseResult)
      ensures r == Parse(View(), input, underscore)
    {
      var text := Trim(input);
      if text == "" || |text| > 255 {
        return Invalid;
      }
      if HasAny(text, IsControl) || HasAny(text, IsUrlChar) {
        return Invalid;
      }
      if !Lacks(text, ':') {
        r := ParseIpv6(text);
      } else if All(text, IsDigitOrDot) {
        r := ParseIpv4(text);
      } else {
        r := ParseName(text, underscore);
      }
    }
  }
}
