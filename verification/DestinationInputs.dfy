/** Exactly which inputs the server and the web client accept and refuse as a destination, said without their
    parsers. */
module DestinationInputs {
  import opened Options
  import opened Text
  import opened Numerals
  import opened Addresses
  import opened IpBlocklist
  import opened Destinations

  // ----- letter case

  lemma CaseBlindTests(s: string, p: char -> bool)
    requires CaseBlind(p)
    ensures HasAny(Lower(s), p) <==> HasAny(s, p)
    ensures All(Lower(s), p) <==> All(s, p)
  {
    assert forall i :: 0 <= i < |s| ==> Lower(s)[i] == LowerChar(s[i]);
    forall i | 0 <= i < |s|
      ensures p(Lower(s)[i]) == p(s[i])
    {
    }
  }

  lemma GuardsLower(t: string)
    ensures HasAny(Lower(t), IsControl) <==> HasAny(t, IsControl)
    ensures HasAny(Lower(t), IsUrlChar) <==> HasAny(t, IsUrlChar)
    ensures HasAny(Lower(t), IsBeyondAscii) <==> HasAny(t, IsBeyondAscii)
    ensures All(Lower(t), IsDigitOrDot) <==> All(t, IsDigitOrDot)
    ensures All(Lower(t), InV6) <==> All(t, InV6)
  {
    CaseBlindTests(t, IsControl);
    CaseBlindTests(t, IsUrlChar);
    CaseBlindTests(t, IsBeyondAscii);
    CaseBlindTests(t, IsDigitOrDot);
    CaseBlindTests(t, InV6);
  }

  lemma V6TextLower(p: Policy, t: string)
    requires ReadsGrammar(p.tryParse) && !Lacks(t, ':')
    ensures ParseV6Text(p, Lower(t)) == ParseV6Text(p, t)
  {
    GuardsLower(t);
    DotsLower(t);
    V6Lower(t);
    if All(t, InV6) {
      SameReading(t, p.tryParse(t));
      SameReading(Lower(t), p.tryParse(Lower(t)));
    }
  }

  lemma HostnameLower(p: Policy, t: string, underscore: bool)
    ensures ParseHostname(p, Lower(t), underscore) == ParseHostname(p, t, underscore)
  {
    GuardsLower(t);
    TrimEndLower(t, IsDot);
    LowerTwice(TrimEnd(t, IsDot));
  }

  /** Letter case does not matter to the server, whatever is typed and whatever is configured; for texts with a
      colon if the runtime's parser follows the grammar of addresses. */
  lemma CaseDoesNotMatter(p: Policy, s: string, underscore: bool)
    requires Lacks(s, ':') || ReadsGrammar(p.tryParse)
    ensures Parse(p, Lower(s), underscore) == Parse(p, s, underscore)
  {
    var t := Trim(s);
    TrimLower(s);
    GuardsLower(t);
    DotsLower(t);
    var before, after := TrimMeans(s);
    if !Lacks(t, ':') {
      assert !Lacks(s, ':') by {
        var i :| 0 <= i < |t| && t[i] == ':';
        assert s[|before| + i] == ':';
      }
      V6TextLower(p, t);
    } else if All(t, IsDigitOrDot) {
      V4Lower(t);
    } else {
      HostnameLower(p, t, underscore);
    }
  }

  // ----- names

  /** The name an input stands for: without white space around it, without dots behind it, in lower case. */
  function Canonical(input: string): string {
    Lower(TrimEnd(Trim(input), IsDot))
  }

  /** Another dot at the end does not matter either. */
  lemma TrailingDot(p: Policy, s: string, underscore: bool)
    requires Trim(s) == s && |s| < 255 && Lacks(s, ':') && !All(s, IsDigitOrDot)
    ensures Parse(p, s + ".", underscore) == Parse(p, s, underscore)
  {
    var t := s + ".";
    assert t[..|t| - 1] == s;
    DottedIsTrimmed(s);
    OneMoreChar(s, IsControl);
    OneMoreChar(s, IsUrlChar);
    OneMoreChar(s, IsBeyondAscii);
    assert Lacks(t, ':');
    assert !All(t, IsDigitOrDot) by {
      var i :| 0 <= i < |s| && !IsDigitOrDot(s[i]);
      assert t[i] == s[i];
    }
  }

  lemma DottedIsTrimmed(s: string)
    requires Trim(s) == s && s != ""
    ensures Trim(s + ".") == s + "."
  {
    var before, after := TrimMeans(s);
    assert (s + ".")[0] == s[0];
  }

  lemma OneMoreChar(s: string, p: char -> bool)
    requires !p('.')
    ensures HasAny(s + ".", p) <==> HasAny(s, p)
  {
    var t := s + ".";
    if HasAny(s, p) {
      var i :| 0 <= i < |s| && p(s[i]);
      assert p(t[i]);
    }
  }

  /** What the server makes of a name with labels it can read. */
  predicate IsReadableName(name: string, underscore: bool) {
    |name| <= 253 && AllValidLabels(Split(name, '.'), underscore) && !All(LastPiece(name), IsDigit)
  }

  /** The characters of an input whose canonical form is a name. */
  lemma InputChars(input: string, underscore: bool)
    requires IsReadableName(Canonical(input), underscore)
    ensures All(Trim(input), IsNameChar) && !All(Trim(input), IsDigitOrDot) && Trim(input) != ""
  {
    var text, name := Trim(input), Canonical(input);
    NameChars(name, underscore);
    var cut := CanonicalCuts(text);
    DecapitalisedChars(text, name, cut);
    if All(text, IsDigitOrDot) {
      NumericLabel(name);
    }
  }

  lemma CanonicalCuts(text: string) returns (cut: string)
    ensures All(cut, IsDot) && Lower(TrimEnd(text, IsDot)) + cut == Lower(text)
  {
    cut := TrimEndMeans(text, IsDot);
    LowerParts(TrimEnd(text, IsDot), cut);
    assert Lower(cut) == cut;
  }

  /** The verdict on every input whose canonical form has labels the server can read. */
  lemma ParseByName(p: Policy, input: string, underscore: bool)
    requires IsReadableName(Canonical(input), underscore) && |Trim(input)| <= 255
    ensures Parse(p, input, underscore) ==
      if |Split(Canonical(input), '.')| < 2 then Refused else NameVerdict(p, Canonical(input))
  {
    InputChars(input, underscore);
    Unspaced(Trim(input));
    NameEndsInLabel(Canonical(input), underscore);
  }

  /** A name that is refused as internal or blocked. */
  predicate IsRefusedName(p: Policy, name: string, underscore: bool) {
    && IsReadableName(name, underscore)
    && (|Split(name, '.')| < 2 || (Lacks(LastPiece(name), '_') && NameIn(p.suffixes, name)))
  }

  predicate IsAcceptedName(p: Policy, name: string, underscore: bool) {
    && IsReadableName(name, underscore)
    && |Split(name, '.')| >= 2 && Lacks(LastPiece(name), '_') && !NameIn(p.suffixes, name)
  }

  /** Exactly the inputs that are accepted as a host name, and the name they are accepted as: always in lower
      case. */
  lemma AcceptedNames(p: Policy, input: string, underscore: bool, name: string)
    ensures Parse(p, input, underscore) == Ok(Hostname(name)) <==>
      name == Canonical(input) && |Trim(input)| <= 255 && IsAcceptedName(p, name, underscore)
    ensures Parse(p, input, underscore) == Ok(Hostname(name)) ==> name == Lower(name) && LastPiece(name) != ""
  {
    if Parse(p, input, underscore) == Ok(Hostname(name)) {
      LowerTwice(TrimEnd(Trim(input), IsDot));
      LastLabel(name, underscore);
    }
    if name == Canonical(input) && |Trim(input)| <= 255 && IsAcceptedName(p, name, underscore) {
      ParseByName(p, input, underscore);
    }
  }

  // ----- addresses

  /** Exactly the inputs that are accepted as an IPv4 address. */
  lemma AcceptedV4(p: Policy, input: string, underscore: bool, o: Address, text: string)
    ensures Parse(p, input, underscore) == Ok(Address4(o, text)) <==>
      ValidOctets(o) && Trim(input) == Dotted(o) && text == Dotted(o) && !Blocked(p.nets, o)
  {
    var t := Trim(input);
    if ValidOctets(o) && t == Dotted(o) {
      DottedInput(p, input, underscore, o);
    }
    if Parse(p, input, underscore) == Ok(Address4(o, text)) {
      V4Exact(t, o);
    }
  }

  lemma DottedInput(p: Policy, input: string, underscore: bool, o: Address)
    requires ValidOctets(o) && Trim(input) == Dotted(o)
    ensures Parse(p, input, underscore) == if Blocked(p.nets, o) then Refused else Ok(Address4(o, Dotted(o)))
  {
    var t := Trim(input);
    DottedShape(o);
    V4Exact(t, o);
    assert forall i :: 0 <= i < |t| ==> InDotted(t[i]);
    V4Parses(p, t, underscore);
    TrimTwice(input);
  }

  lemma TrimTwice(s: string)
    ensures Trim(Trim(s)) == Trim(s)
  {
    var before, after := TrimMeans(s);
  }

  /** An address the text spells, given by its bytes. */
  ghost predicate SpellsBytes(s: string, a: Bytes) {
    exists g :: ValidGroups(g) && Spells(s, g) && ToBytes(g) == a
  }

  lemma SpelledInput(p: Policy, input: string, underscore: bool, a: Bytes)
    requires ReadsGrammar(p.tryParse) && SpellsBytes(Trim(input), a)
    ensures ValidBytes(a) && |a| == 16
    ensures Parse(p, input, underscore) == if Blocked(p.nets, a) then Refused else Ok(Address6(a))
  {
    var t := Trim(input);
    var g :| ValidGroups(g) && Spells(t, g) && ToBytes(g) == a;
    V6Exact(t, g);
    TrimTwice(input);
    V6Parses(p, t, underscore);
  }

  /** Exactly the inputs that are accepted as an IPv6 address. */
  lemma AcceptedV6(p: Policy, input: string, underscore: bool, a: Address)
    requires ReadsGrammar(p.tryParse)
    ensures Parse(p, input, underscore) == Ok(Address6(a)) <==>
      SpellsBytes(Trim(input), a) && ValidBytes(a) && !Blocked(p.nets, a)
  {
    var t := Trim(input);
    if SpellsBytes(t, a) {
      SpelledInput(p, input, underscore, a);
    }
    if Parse(p, input, underscore) == Ok(Address6(a)) {
      assert IsRead(t, p.tryParse(t));
    }
  }

  // ----- refusals

  ghost predicate IsRefusedAddress(p: Policy, text: string) {
    || (exists o :: ValidOctets(o) && text == Dotted(o) && Blocked(p.nets, o))
    || (exists a :: SpellsBytes(text, a) && ValidBytes(a) && Blocked(p.nets, a))
  }

  /** Exactly the inputs that are refused as internal or restricted; every other input is accepted as one of the
      three kinds above or is invalid. */
  lemma RefusedInputs(p: Policy, input: string, underscore: bool)
    requires ReadsGrammar(p.tryParse)
    ensures Parse(p, input, underscore) == Refused <==>
      || IsRefusedAddress(p, Trim(input))
      || (|Trim(input)| <= 255 && IsRefusedName(p, Canonical(input), underscore))
  {
    var t := Trim(input);
    if Parse(p, input, underscore) == Refused {
      RefusedMeans(p, input, underscore);
    }
    if IsRefusedAddress(p, t) {
      if o :| ValidOctets(o) && t == Dotted(o) && Blocked(p.nets, o) {
        DottedInput(p, input, underscore, o);
      } else {
        var a :| SpellsBytes(t, a) && ValidBytes(a) && Blocked(p.nets, a);
        SpelledInput(p, input, underscore, a);
      }
    }
    if |t| <= 255 && IsRefusedName(p, Canonical(input), underscore) {
      ParseByName(p, input, underscore);
    }
  }

  lemma RefusedMeans(p: Policy, input: string, underscore: bool)
    requires ReadsGrammar(p.tryParse) && Parse(p, input, underscore) == Refused
    ensures IsRefusedAddress(p, Trim(input)) || (|Trim(input)| <= 255 && IsRefusedName(p, Canonical(input), underscore))
  {
    var t := Trim(input);
    if !Lacks(t, ':') {
      assert IsRead(t, p.tryParse(t));
      assert SpellsBytes(t, p.tryParse(t).value);
    } else if All(t, IsDigitOrDot) {
      V4Exact(t, ParseV4(t).value);
    } else {
      var name := Canonical(input);
      if |Split(name, '.')| < 2 && All(LastPiece(name), IsDigit) {
        OneNumber(input);
      }
    }
  }

  /** A number alone is no name, however many dots follow it. */
  lemma OneNumber(input: string)
    requires |Split(Canonical(input), '.')| < 2 && All(LastPiece(Canonical(input)), IsDigit)
    ensures All(Trim(input), IsDigitOrDot)
  {
    var text, name := Trim(input), Canonical(input);
    JoinSplit(name, '.');
    assert All(name, IsDigit);
    var cut := CanonicalCuts(text);
    DecapitalisedChars(text, name, cut);
  }

  lemma DefaultEndsInLetter(i: nat)
    requires i < |DEFAULT_SUFFIXES|
    ensures var s := DEFAULT_SUFFIXES[i]; s != "" && 'a' <= s[|s| - 1] <= 'z'
  {
  }

  /** The last label of a name under a default suffix is neither a number nor has it an underscore. */
  lemma DefaultLastLabel(name: string)
    requires NameIn(DEFAULT_SUFFIXES, name)
    ensures Lacks(LastPiece(name), '_') && !All(LastPiece(name), IsDigit)
  {
    var i :| 0 <= i < |DEFAULT_SUFFIXES| && Under(name, DEFAULT_SUFFIXES[i]);
    var suffix := DEFAULT_SUFFIXES[i];
    PlainDefaults(i);
    DefaultEndsInLetter(i);
    LastLabelUnder(name, suffix);
    SharedLastPiece(name, suffix);
    EndsInLetter(suffix);
  }

  lemma EndsInLetter(s: string)
    requires s != "" && 'a' <= s[|s| - 1] <= 'z'
    ensures !All(LastPiece(s), IsDigit)
  {
    JoinSplit(s, '.');
    if LastPiece(s) != "" {
      LastOfJoin(Split(s, '.'), ".");
    } else {
      EmptyLast(s);
    }
  }

  /** A text whose last piece is empty ends in the separator. */
  lemma EmptyLast(s: string)
    requires s != "" && LastPiece(s) == ""
    ensures s[|s| - 1] == '.'
  {
    var parts := Split(s, '.');
    JoinSplit(s, '.');
    assert parts == parts[..|parts| - 1] + [""];
    JoinGlue(parts[..|parts| - 1], [""], ".");
  }

  /** No default suffix can be avoided, by no letter case and no dots behind the name: the server refuses what is
      under it, whatever is configured. */
  lemma InternalInputsRefused(nets: seq<Net>, extra: seq<string>, tryParse: string -> Option<Address>, input: string,
                              underscore: bool)
    requires NameIn(DEFAULT_SUFFIXES, Canonical(input)) && AllValidLabels(Split(Canonical(input), '.'), underscore)
    requires |Canonical(input)| <= 253 && |Trim(input)| <= 255
    ensures Parse(PolicyWith(nets, extra, tryParse), input, underscore) == Refused
  {
    DefaultLastLabel(Canonical(input));
    ParseByName(PolicyWith(nets, extra, tryParse), input, underscore);
    BlockedNames(nets, extra, tryParse, Canonical(input));
  }

  // ----- the web client

  /** In lower case the two sides have the same rule for labels. */
  lemma SameLabels(part: string, underscore: bool)
    requires Lower(part) == part
    ensures IsWebLabel(part, underscore) <==> IsValidLabel(part, underscore)
  {
    forall i | 0 <= i < |part|
      ensures IsLabelChar(part[i], underscore) <==> IsWebLabelChar(part[i], underscore) || part[i] == '-'
    {
      assert Lower(part)[i] == LowerChar(part[i]);
    }
  }

  /** The name an input stands for in the web client: without the dot behind it, in lower case. */
  function WebName(input: string): string {
    var text := Trim(input);
    Lower(if EndsWith(text, ".") then text[..|text| - 1] else text)
  }

  predicate IsWebName(name: string, underscore: bool) {
    && AllWebLabels(Split(name, '.'), underscore) && !All(LastPiece(name), IsDigit)
    && |Split(name, '.')| >= 2 && !NameIn(INTERNAL_SUFFIXES, name)
  }

  lemma WebLabelChars(name: string, underscore: bool)
    requires AllWebLabels(Split(name, '.'), underscore)
    ensures All(name, IsNameChar)
  {
    var labels := Split(name, '.');
    JoinSplit(name, '.');
    forall i | 0 <= i < |labels|
      ensures All(labels[i], IsNameChar)
    {
      assert IsWebLabel(labels[i], underscore);
    }
    JoinAll(labels, ".", IsNameChar);
  }

  lemma WebInputChars(input: string, underscore: bool)
    requires IsWebName(WebName(input), underscore)
    ensures All(Trim(input), IsNameChar) && !All(Trim(input), IsDigitOrDot)
  {
    WebNameChars(WebName(input), underscore);
    var cut := WebNameCuts(Trim(input));
    DecapitalisedChars(Trim(input), WebName(input), cut);
  }

  lemma WebNameChars(name: string, underscore: bool)
    requires IsWebName(name, underscore)
    ensures All(name, IsNameChar) && !All(name, IsDigitOrDot)
  {
    WebLabelChars(name, underscore);
    if All(name, IsDigitOrDot) {
      NumericLabel(name);
    }
  }

  lemma WebNameCuts(text: string) returns (cut: string)
    ensures All(cut, IsDot) && Lower(if EndsWith(text, ".") then text[..|text| - 1] else text) + cut == Lower(text)
  {
    cut := if EndsWith(text, ".") then text[|text| - 1..] else "";
  }

  /** A text whose lower-case form is a name and dots. */
  lemma DecapitalisedChars(text: string, name: string, cut: string)
    requires Lower(text) == name + cut && All(name, IsNameChar) && All(cut, IsDot)
    ensures All(text, IsNameChar)
    ensures All(text, IsDigitOrDot) <==> All(name, IsDigitOrDot)
  {
    forall i | 0 <= i < |text|
      ensures IsNameChar(text[i])
    {
      assert LowerChar(text[i]) == (name + cut)[i];
      assert IsNameChar((name + cut)[i]);
    }
    CaseBlindTests(text, IsDigitOrDot);
    assert forall i :: 0 <= i < |name| ==> (name + cut)[i] == name[i];
  }

  /** Exactly the inputs the web client accepts as a host name, and as which. */
  lemma WebAcceptsNames(raw: string, family: Family, underscore: bool, v: string)
    ensures Validate(raw, family, underscore) == Accepted(v, KindName) <==>
      v == WebName(raw) && 0 < |Trim(raw)| <= 253 && IsWebName(v, underscore)
  {
    var t := Trim(raw);
    if Validate(raw, family, underscore) == Accepted(v, KindName) {
      AcceptedInput(raw, family, underscore);
      WebNameMeans(raw, underscore);
    }
    if v == WebName(raw) && 0 < |t| <= 253 && IsWebName(v, underscore) {
      WebInputChars(raw, underscore);
      TrimTwice(raw);
      PlainName(t, family, underscore);
      TrimmedFirst(raw, family, underscore);
      WebNameMeans(raw, underscore);
    }
  }

  lemma WebNameMeans(raw: string, underscore: bool)
    ensures var name := WebName(raw);
            ValidateName(Trim(raw), underscore)
              == if name != "" && IsWebName(name, underscore) then Accepted(name, KindName) else Rejected
    ensures WebName(raw) == "" ==> !IsWebName(WebName(raw), underscore)
  {
  }

  lemma TrimmedFirst(raw: string, family: Family, underscore: bool)
    requires Trim(Trim(raw)) == Trim(raw)
    ensures Validate(raw, family, underscore) == Validate(Trim(raw), family, underscore)
  {
  }

  /** Exactly the inputs it accepts as an IPv4 address: unless only IPv6 is asked for, every public one. */
  lemma WebAcceptsV4(raw: string, family: Family, underscore: bool, v: string)
    ensures Validate(raw, family, underscore) == Accepted(v, KindV4) <==>
      v == Trim(raw) && !family.Ipv6Only? && exists o :: ValidOctets(o) && v == Dotted(o) && WebReason4(o).None?
  {
    var t := Trim(raw);
    if Validate(raw, family, underscore) == Accepted(v, KindV4) {
      V4Exact(t, ParseV4(t).value);
    }
    if o :| ValidOctets(o) && t == Dotted(o) && WebReason4(o).None? {
      DottedShape(o);
      V4Exact(t, o);
      assert forall i :: 0 <= i < |t| ==> InDotted(t[i]);
      PlainGuards(t);
    }
  }

  lemma PlainGuards(t: string)
    requires All(t, InDotted)
    ensures !HasAny(t, IsSpace) && !HasScheme(t) && !HasAny(t, IsPathChar) && !HasAny(t, IsShellChar) && All(t, IsPrintable)
    ensures Lacks(t, ':') && All(t, IsDigitOrDot)
  {
    assert forall i :: 0 <= i < |t| ==> InDotted(t[i]);
    assert All(t, IsNameChar);
    NameCharsAllowed(t);
    NoScheme(t);
  }

  lemma V6Guards(t: string)
    requires All(t, InV6)
    ensures !HasAny(t, IsSpace) && !HasScheme(t) && !HasAny(t, IsPathChar) && !HasAny(t, IsShellChar) && All(t, IsPrintable)
  {
    forall i | 0 <= i < |t|
      ensures !IsSpace(t[i]) && !IsPathChar(t[i]) && !IsShellChar(t[i]) && IsPrintable(t[i])
    {
      V6CharIsPlain(t[i]);
    }
    V6IsNoScheme(t);
  }

  lemma V6CharIsPlain(c: char)
    requires InV6(c)
    ensures !IsSpace(c) && !IsPathChar(c) && !IsShellChar(c) && IsPrintable(c)
  {
  }

  lemma V6IsNoScheme(t: string)
    requires All(t, InV6)
    ensures !HasScheme(t)
  {
    forall i: nat | i + 3 <= |t|
      ensures !StartsAt(t, i, "://")
    {
      assert InV6(t[i + 1]);
      assert t[i..i + 3][1] == t[i + 1];
    }
  }

  /** Exactly the inputs it accepts as an IPv6 address: unless only IPv4 is asked for, every text of an address
      it has no reason to refuse. */
  lemma WebAcceptsV6(raw: string, family: Family, underscore: bool, v: string)
    ensures Validate(raw, family, underscore) == Accepted(v, KindV6) <==>
      v == Trim(raw) && !family.Ipv4Only? && exists g :: |g| == 8 && Spells(v, g) && WebReason6(g).None?
  {
    var t := Trim(raw);
    if Validate(raw, family, underscore) == Accepted(v, KindV6) {
      V6Exact(t, ParseV6(t).value);
    }
    if g :| |g| == 8 && Spells(t, g) && WebReason6(g).None? {
      V6Exact(t, g);
      V6Plain(t);
      V6Guards(t);
    }
  }
}
