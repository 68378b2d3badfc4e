/** Reading back the rendered text of a traceroute: what the parser makes of what the renderer wrote. */
module TracerouteRoundTrip {
  import opened Options
  import opened Text
  import opened Numerals
  import opened TextRenderer
  import opened TracerouteService
  import opened TracerouteParser

  // ----- numbers

  lemma DecLacksDot(n: nat)
    ensures Lacks(Dec(n), '.') && Split(Dec(n), '.') == [Dec(n)]
  {
    SplitWhole(Dec(n), '.');
  }

  lemma SplitDecimal(q: nat, frac: string)
    requires All(frac, IsDigit)
    ensures Split(Dec(q) + "." + frac, '.') == [Dec(q), frac]
  {
    DecLacksDot(q);
    SplitGlue(Dec(q), '.', frac);
    SplitWhole(frac, '.');
  }

  lemma FractionValues(d: nat, e: nat)
    requires d < 10 && e < 10
    ensures DecValue([DigitChar(d)]) == d && DecValue([DigitChar(d), DigitChar(e)]) == 10 * d + e
    ensures Power10(1) == 10 && Power10(2) == 100
  {
    assert [DigitChar(d)][..0] == [] && [DigitChar(d), DigitChar(e)][..1] == [DigitChar(d)];
    assert Power10(2) == 10 * Power10(1);
  }

  lemma WholeNumber(q: nat)
    ensures ParseNumber(Dec(q)) == Some(q as real)
  {
    DecLacksDot(q);
    DecRoundTrip(q);
  }

  lemma DecimalNumber(q: nat, frac: string)
    requires All(frac, IsDigit) && frac != ""
    ensures ParseNumber(Dec(q) + "." + frac) == Some(Decimal(q, DecValue(frac), Power10(|frac|)))
  {
    SplitDecimal(q, frac);
    DecRoundTrip(q);
    assert |Dec(q) + "." + frac| > 1;
  }

  lemma Cents(n: nat, q: nat, d: nat, e: nat)
    requires n == 100 * q + 10 * d + e
    ensures Decimal(q, 10 * d + e, 100) == n as real / 100.0
    ensures e == 0 ==> Decimal(q, d, 10) == n as real / 100.0
    ensures d == 0 && e == 0 ==> q as real == n as real / 100.0
  {
  }

  /** Every multiple of 0.01 is printed as a number that reads back as itself. */
  lemma NumberRoundTrip(n: nat)
    ensures ParseNumber(FormatHundredths(n)) == Some(n as real / 100.0)
  {
    var q, d, e := n / 100, n / 10 % 10, n % 10;
    FractionValues(d, e);
    Cents(n, q, d, e);
    if n % 100 == 0 {
      WholeNumber(q);
      assert FormatHundredths(n) == Dec(q);
    } else if e == 0 {
      DecimalNumber(q, [DigitChar(d)]);
      assert FormatHundredths(n) == Dec(q) + "." + [DigitChar(d)];
    } else {
      DecimalNumber(q, [DigitChar(d), DigitChar(e)]);
      assert FormatHundredths(n) == Dec(q) + "." + [DigitChar(d), DigitChar(e)];
    }
  }

  /** So it does with a point between whole and fraction, and with any other separator only if there is no
      fraction. */
  lemma NumberReadsBack(n: nat, separator: char)
    requires !IsDigit(separator)
    ensures ParseNumber(FormatWith(n, separator)) == Some(n as real / 100.0) <==> separator == '.' || n % 100 == 0
  {
    NumberRoundTrip(n);
    if n % 100 == 0 {
      assert FormatWith(n, separator) == FormatHundredths(n);
    } else if separator != '.' {
      var s := FormatWith(n, separator);
      assert s[|Dec(n / 100)|] == separator;
      SplitWhole(s, '.');
    }
  }

  /** Any other time reads back as the nearest number of hundredths, of two the greater one. */
  lemma TimeReadsBackNear(v: real)
    requires v >= 0.0
    ensures var r := ParseNumber(FormatMs(v)); r.Some? && -0.005 < r.value - v <= 0.005
  {
    NumberRoundTrip(Hundredths(v));
  }

  predicate IsNumberChar(c: char) { IsDigit(c) || c == '.' }

  lemma NumberChars(n: nat)
    ensures All(FormatHundredths(n), IsNumberChar) && FormatHundredths(n) != "" && IsDigit(FormatHundredths(n)[0])
  {
  }

  // ----- tokens

  lemma {:induction false} NonEmptyGlue(a: seq<string>, b: seq<string>)
    ensures NonEmpty(a + b) == NonEmpty(a) + NonEmpty(b)
  {
    if a == [] {
      assert a + b == b;
    } else {
      NonEmptyGlue(a[1..], b);
      assert a == [a[0]] + a[1..] && a + b == [a[0]] + (a[1..] + b);
      NonEmptyCons(a[0], a[1..]);
      NonEmptyCons(a[0], a[1..] + b);
    }
  }

  lemma NonEmptyCons(x: string, rest: seq<string>)
    ensures NonEmpty([x] + rest) == (if x == "" then [] else [x]) + NonEmpty(rest)
  {
    assert ([x] + rest)[1..] == rest;
  }

  lemma TokensGlue(a: string, b: string)
    ensures Tokens(a + " " + b) == Tokens(a) + Tokens(b)
  {
    SplitGlue(a, ' ', b);
    NonEmptyGlue(Split(a, ' '), Split(b, ' '));
  }

  lemma TokensGlue2(a: string, b: string)
    ensures Tokens(a + "  " + b) == Tokens(a) + Tokens(b)
  {
    assert a + "  " + b == a + " " + ("" + " " + b);
    TokensGlue(a, "" + " " + b);
    TokensGlue("", b);
    assert Tokens("") == [];
  }

  lemma OneToken(s: string)
    requires s != "" && Lacks(s, ' ')
    ensures Tokens(s) == [s]
  {
    SplitWhole(s, ' ');
    assert NonEmpty([s]) == [s];
  }

  /** The tokens of one round-trip time. */
  function RttTokens(rtts: seq<Rtt>): seq<string> {
    if rtts == [] then []
    else (if rtts[0].Some? then [FormatMs(rtts[0].value), "ms"] else ["*"]) + RttTokens(rtts[1..])
  }

  /** Times that are multiples of 0.01 ms. */
  predicate Exact(rtts: seq<Rtt>) {
    forall i :: 0 <= i < |rtts| && rtts[i].Some? ==>
      rtts[i].value >= 0.0 && rtts[i].value == Hundredths(rtts[i].value) as real / 100.0
  }

  lemma ExactNumber(v: real)
    requires v >= 0.0 && v == Hundredths(v) as real / 100.0
    ensures Hundredths(v) >= 0 && FormatMs(v) == FormatHundredths(Hundredths(v)) && ParseNumber(FormatMs(v)) == Some(v)
    ensures FormatMs(v) != "" && IsDigit(FormatMs(v)[0]) && All(FormatMs(v), IsNumberChar)
  {
    NumberRoundTrip(Hundredths(v));
    NumberChars(Hundredths(v));
  }

  lemma TokensOfRtt(r: Rtt)
    requires Exact([r])
    ensures Tokens(RttText(r)) == RttTokens([r])
  {
    assert [r][1..] == [];
    if r.Some? {
      assert [r][0] == r;
      ExactNumber(r.value);
      var number := FormatMs(r.value);
      assert RttText(r) == number + " " + "ms";
      TokensGlue(number, "ms");
      OneToken(number);
      OneToken("ms");
    } else {
      OneToken("*");
    }
  }

  lemma {:induction false} RttTokensOf(rtts: seq<Rtt>)
    requires Exact(rtts)
    ensures Tokens(Join(RttTexts(rtts), "  ")) == RttTokens(rtts)
  {
    var texts := RttTexts(rtts);
    if rtts == [] {
      assert Tokens("") == [];
    } else {
      assert [rtts[0]][0] == rtts[0];
      TokensOfRtt(rtts[0]);
      RttTokensOf(rtts[1..]);
      assert texts[1..] == RttTexts(rtts[1..]);
      assert [rtts[0]][1..] == [];
      if |rtts| > 1 {
        TokensGlue2(texts[0], Join(texts[1..], "  "));
      }
    }
  }

  /** The parser finds all times, in order, and no address among them. */
  lemma {:induction false} ScanRtts<A>(tryParse: string -> Option<A>, rtts: seq<Rtt>)
    requires Exact(rtts)
    ensures Scan(tryParse, RttTokens(rtts)) == Found(None, rtts)
    ensures RttTokens(rtts) != [] ==> RttTokens(rtts)[0] != "ms"
  {
    if rtts != [] {
      ScanRtts(tryParse, rtts[1..]);
      var t := RttTokens(rtts);
      if rtts[0].Some? {
        ExactNumber(rtts[0].value);
        assert t[2..] == RttTokens(rtts[1..]);
        assert [rtts[0]] + rtts[1..] == rtts;
      } else {
        assert t[1..] == RttTokens(rtts[1..]);
        assert [rtts[0]] + rtts[1..] == rtts;
      }
    }
  }

  // ----- hosts

  /** A word that survives as one token. */
  predicate IsWord(s: string) {
    s != "" && forall i :: 0 <= i < |s| ==> !IsSpace(s[i])
  }

  /** The hops the statement covers: numbers of 32 bits, as all hops have; exact times; address texts that the
      address parser reads, and does not read in parentheses; host names without white space other than a
      lone star. */
  predicate Readable<A>(tryParse: string -> Option<A>, h: Hop) {
    && h.number <= MAX_INT
    && Exact(h.rtts)
    && (h.address.Some? ==>
          var a := h.address.value;
          IsWord(a) && LooksLikeAddress(a) && a[0] != '!' && tryParse(a).Some? && tryParse("(" + a + ")").None?)
    && (h.hostname.Some? ==> IsWord(h.hostname.value) && h.hostname.value != "*")
  }

  predicate AllReadable<A>(tryParse: string -> Option<A>, hops: seq<Hop>) {
    forall i :: 0 <= i < |hops| ==> Readable(tryParse, hops[i])
  }

  lemma FrontReadable<A>(tryParse: string -> Option<A>, hops: seq<Hop>)
    requires AllReadable(tryParse, hops) && hops != []
    ensures AllReadable(tryParse, hops[..|hops| - 1]) && Readable(tryParse, hops[|hops| - 1])
  {
  }

  function HostTokens(h: Hop): seq<string> {
    if !h.responded then ["*", "*", "*"]
    else if h.redacted then ["[internal", "network]"]
    else if h.hostname.Some? && h.address.Some? then [h.hostname.value, "(" + h.address.value + ")"]
    else if h.address.Some? then [h.address.value]
    else ["*"]
  }

  lemma TwoTokens(a: string, b: string)
    requires a != "" && b != "" && Lacks(a, ' ') && Lacks(b, ' ')
    ensures Tokens(a + " " + b) == [a, b]
  {
    OneToken(a);
    OneToken(b);
    TokensGlue(a, b);
  }

  lemma StarTokens()
    ensures Tokens("* * *") == ["*", "*", "*"]
  {
    TwoTokens("*", "*");
    OneToken("*");
    TokensGlue("*" + " " + "*", "*");
    assert "* * *" == "*" + " " + "*" + " " + "*";
  }

  lemma InternalTokens()
    ensures Tokens("[internal network]") == ["[internal", "network]"]
  {
    TwoTokens("[internal", "network]");
    assert "[internal network]" == "[internal" + " " + "network]";
  }

  lemma NamedTokens(n: string, a: string)
    requires IsWord(n) && IsWord(a)
    ensures Tokens(n + " (" + a + ")") == [n, "(" + a + ")"]
  {
    TwoTokens(n, "(" + a + ")");
    assert n + " (" + a + ")" == n + " " + ("(" + a + ")");
  }

  lemma HostTokensOf<A>(tryParse: string -> Option<A>, h: Hop)
    requires Readable(tryParse, h)
    ensures Tokens(HostText(h)) == HostTokens(h)
  {
    if !h.responded {
      StarTokens();
    } else if h.redacted {
      InternalTokens();
    } else if h.address.None? {
      OneToken("*");
    } else if h.hostname.Some? {
      NamedTokens(h.hostname.value, h.address.value);
    } else {
      OneToken(h.address.value);
    }
  }

  /** An address the parser finds in a host name: none, unless the name itself reads as one. */
  function NameAddress<A>(tryParse: string -> Option<A>, name: string): Option<A> {
    if name != "" && name[0] != '!' && LooksLikeAddress(name) then tryParse(name) else None
  }

  /** What comes back of one hop. */
  function EchoOf<A>(tryParse: string -> Option<A>, h: Hop): RawHop<A> {
    if !h.responded then RawHop(h.number, None, [None, None, None])
    else if h.redacted then RawHop(h.number, None, h.rtts)
    else if h.hostname.Some? && h.address.Some? then RawHop(h.number, NameAddress(tryParse, h.hostname.value), h.rtts)
    else if h.address.Some? then RawHop(h.number, tryParse(h.address.value), h.rtts)
    else RawHop(h.number, None, [None] + h.rtts)
  }

  lemma ParenthesisIsNoNumber(a: string)
    ensures ParseNumber("(" + a + ")").None?
  {
    var s := "(" + a + ")";
    var parts := Split(s, '.');
    assert s[0] == '(';
    assert parts == Prepend('(', '.', Split(a + ")", '.')) by {
      SplitCons('(', a + ")", '.');
      assert s == ['('] + (a + ")");
    }
    assert parts[0][0] == '(';
  }

  /** Scanning the host and then the times gives what comes back. */
  ghost predicate ScansAs<A>(tryParse: string -> Option<A>, tokens: seq<string>, e: RawHop<A>) {
    Scan(tryParse, tokens) == Found(e.address, e.rtts)
  }

  lemma ScanHost<A>(tryParse: string -> Option<A>, h: Hop)
    requires Readable(tryParse, h)
    ensures ScansAs(tryParse, HostTokens(h) + if h.responded then RttTokens(h.rtts) else [], EchoOf(tryParse, h))
  {
    if !h.responded {
      ScanStars(tryParse);
    } else {
      ScanRtts(tryParse, h.rtts);
      if h.redacted || h.address.None? {
        ScanHidden(tryParse, h);
      } else {
        ScanShown(tryParse, h);
      }
    }
  }

  lemma ScanHidden<A>(tryParse: string -> Option<A>, h: Hop)
    requires h.responded && (h.redacted || h.address.None?)
    requires ScansAs(tryParse, RttTokens(h.rtts), RawHop(0, None, h.rtts))
    requires RttTokens(h.rtts) != [] ==> RttTokens(h.rtts)[0] != "ms"
    ensures ScansAs(tryParse, HostTokens(h) + RttTokens(h.rtts), EchoOf(tryParse, h))
  {
    if h.redacted {
      ScanTwo(tryParse, "[internal", "network]", RttTokens(h.rtts));
    } else {
      assert (["*"] + RttTokens(h.rtts))[1..] == RttTokens(h.rtts);
    }
  }

  lemma ScanShown<A>(tryParse: string -> Option<A>, h: Hop)
    requires Readable(tryParse, h) && h.responded && !h.redacted && h.address.Some?
    requires ScansAs(tryParse, RttTokens(h.rtts), RawHop(0, None, h.rtts))
    requires RttTokens(h.rtts) != [] ==> RttTokens(h.rtts)[0] != "ms"
    ensures ScansAs(tryParse, HostTokens(h) + RttTokens(h.rtts), EchoOf(tryParse, h))
  {
    if h.hostname.Some? {
      ParenthesisIsNoNumber(h.address.value);
      ScanTwo(tryParse, h.hostname.value, "(" + h.address.value + ")", RttTokens(h.rtts));
    } else {
      ScanOne(tryParse, h.address.value, RttTokens(h.rtts));
    }
  }

  lemma ScanStars<A>(tryParse: string -> Option<A>)
    ensures Scan(tryParse, ["*", "*", "*"] + []) == Found(None, [None, None, None])
  {
    assert ["*", "*", "*"] + [] == ["*", "*", "*"];
    assert ["*", "*", "*"][1..] == ["*", "*"] && ["*", "*"][1..] == ["*"] && ["*"][1..] == [];
    assert Scan(tryParse, ["*"]) == Found(None, [None]);
    assert Scan(tryParse, ["*", "*"]) == Found(None, [None, None]);
  }

  /** A word that is no star adds nothing but perhaps its address. */
  lemma ScanOne<A>(tryParse: string -> Option<A>, w: string, t: seq<string>)
    requires w != "" && w != "*" && (t != [] ==> t[0] != "ms")
    ensures var rest := Scan(tryParse, t);
            Scan(tryParse, [w] + t) == if NameAddress(tryParse, w).Some? then rest.(address := tryParse(w)) else rest
  {
    assert ([w] + t)[1..] == t;
  }

  lemma ScanTwo<A>(tryParse: string -> Option<A>, w: string, x: string, t: seq<string>)
    requires w != "" && w != "*" && x != "" && x != "*" && x != "ms" && (t != [] ==> t[0] != "ms")
    requires NameAddress(tryParse, x).None?
    ensures var rest := Scan(tryParse, t);
            Scan(tryParse, [w, x] + t) == if NameAddress(tryParse, w).Some? then rest.(address := tryParse(w)) else rest
  {
    ScanOne(tryParse, x, t);
    ScanOne(tryParse, w, [x] + t);
    assert [w, x] + t == [w] + ([x] + t);
  }

  // ----- lines

  function Times(h: Hop): string { Join(RttTexts(h.rtts), "  ") }

  /** What follows the number in a hop's line. */
  function Rest(h: Hop): string {
    HostText(h) + if h.responded then "  " + Times(h) else ""
  }

  lemma RestTokens<A>(tryParse: string -> Option<A>, h: Hop)
    requires Readable(tryParse, h)
    ensures Tokens(Rest(h)) == HostTokens(h) + if h.responded then RttTokens(h.rtts) else []
  {
    HostTokensOf(tryParse, h);
    if h.responded {
      RttTokensOf(h.rtts);
      TokensGlue2(HostText(h), Times(h));
      assert Rest(h) == HostText(h) + "  " + Times(h);
    } else {
      assert Rest(h) == HostText(h);
    }
  }

  predicate StartsDark(s: string) { s != "" && !IsSpace(s[0]) }

  predicate EndsDark(s: string) { s != "" && !IsSpace(s[|s| - 1]) }

  lemma HostIsDark<A>(tryParse: string -> Option<A>, h: Hop)
    requires Readable(tryParse, h)
    ensures StartsDark(HostText(h)) && EndsDark(HostText(h))
  {
  }

  lemma {:induction false} DigitCountOf(d: string, rest: string)
    requires All(d, IsDigit) && rest != "" && !IsDigit(rest[0])
    ensures DigitCount(d + rest) == |d|
  {
    if d == "" {
      assert d + rest == rest;
    } else {
      DigitCountOf(d[1..], rest);
      assert (d + rest)[1..] == d[1..] + rest;
    }
  }

  lemma TrimPad(d: string, rest: string)
    requires d != "" && !IsSpace(d[0])
    ensures TrimStart(PadLeft2(d) + rest, IsSpace) == d + rest
  {
    var line := PadLeft2(d) + rest;
    assert TrimStart(d + rest, IsSpace) == d + rest;
    if |d| < 2 {
      assert line == " " + (d + rest);
      assert line[1..] == d + rest;
    }
  }

  lemma TrimGap(rest: string)
    requires StartsDark(rest)
    ensures TrimStart("  " + rest, IsSpace) == rest
  {
    assert ("  " + rest)[1..] == " " + rest && (" " + rest)[1..] == rest;
    assert TrimStart(" " + rest, IsSpace) == TrimStart(rest, IsSpace);
  }

  /** The number in front is read back, and the rest from its first dark character on. */
  lemma PatternOf(n: nat, rest: string)
    requires StartsDark(rest)
    ensures HopPattern(PadLeft2(Dec(n)) + "  " + rest) == Some(Numbered(n, rest))
  {
    var d, gap := Dec(n), "  " + rest;
    assert PadLeft2(d) + "  " + rest == PadLeft2(d) + gap;
    TrimPad(d, gap);
    DigitCountOf(d, gap);
    DecRoundTrip(n);
    TrimGap(rest);
    assert (d + gap)[..|d|] == d && (d + gap)[|d|..] == gap;
  }

  function Echo<A>(tryParse: string -> Option<A>, h: Hop): seq<RawHop<A>> {
    if Kept(EchoOf(tryParse, h)) then [EchoOf(tryParse, h)] else []
  }

  lemma LineOfRest(h: Hop)
    ensures Line(h) == PadLeft2(Dec(h.number)) + "  " + Rest(h)
  {
    Regroup(PadLeft2(Dec(h.number)) + "  ", HostText(h), if h.responded then "  " + Times(h) else "");
  }

  lemma Regroup(a: string, b: string, c: string)
    ensures a + b + c == a + (b + c)
  {
  }

  lemma NoReturn(s: string)
    requires s == "" || s[|s| - 1] != '\r'
    ensures TrimEnd(s, IsReturn) == s
  {
  }

  /** A line with the tokens of a hop's line is read as that hop. */
  lemma LineReadsBack<A>(tryParse: string -> Option<A>, h: Hop, rest: string)
    requires Readable(tryParse, h) && StartsDark(rest) && rest[|rest| - 1] != '\r' && Tokens(rest) == Tokens(Rest(h))
    ensures ParseLine(tryParse, PadLeft2(Dec(h.number)) + "  " + rest) == Echo(tryParse, h)
    ensures !Overflows(PadLeft2(Dec(h.number)) + "  " + rest)
  {
    var line := PadLeft2(Dec(h.number)) + "  " + rest;
    assert line[|line| - 1] == rest[|rest| - 1];
    NoReturn(line);
    PatternOf(h.number, rest);
    RestTokens(tryParse, h);
    ScanHost(tryParse, h);
  }

  // ----- the whole text

  lemma {:induction false} TrimEndGlue(x: string, y: string)
    requires TrimEnd(y, IsSpace) != ""
    ensures TrimEnd(x + y, IsSpace) == x + TrimEnd(y, IsSpace)
  {
    if IsSpace(y[|y| - 1]) {
      TrimEndGlue(x, y[..|y| - 1]);
      assert (x + y)[..|x + y| - 1] == x + y[..|y| - 1];
    }
  }

  lemma {:induction false} JoinTerminated(front: seq<string>, last: string)
    ensures Terminated(front) + last == Join(front + [last], "\n")
  {
    if front != [] {
      var f, x := front[..|front| - 1], front[|front| - 1];
      JoinTerminated(f, x);
      assert front == f + [x];
      JoinGlue(front, [last], "\n");
    } else {
      assert front + [last] == [last];
    }
  }

  /** A text without line ends of other kinds is left as it is. */
  lemma {:induction false} UnixAlready(s: string)
    requires All(s, IsUnix)
    ensures UnixLines(s) == s
  {
    if s != "" {
      assert IsUnix(s[0]);
      UnixAlready(s[1..]);
      assert s == [s[0]] + s[1..];
    }
  }

  predicate IsUnix(c: char) { NoBreak(c) || c == '\n' }

  lemma {:induction false} TerminatedIsUnix(lines: seq<string>)
    requires forall i :: 0 <= i < |lines| ==> All(lines[i], NoBreak)
    ensures All(Terminated(lines), IsUnix)
  {
    if lines != [] {
      TerminatedIsUnix(lines[..|lines| - 1]);
    }
  }

  lemma PlainText(lines: seq<string>)
    requires forall i :: 0 <= i < |lines| ==> All(lines[i], NoBreak)
    ensures UnixLines(Terminated(lines)) == Terminated(lines)
  {
    TerminatedIsUnix(lines);
    UnixAlready(Terminated(lines));
  }

  /** Trimming the text only shortens its last line. */
  lemma RenderedLines(front: seq<string>, last: string)
    requires TrimEnd(last, IsSpace) != "" && Lacks(last, '\n')
    requires forall i :: 0 <= i < |front| ==> Lacks(front[i], '\n')
    ensures Split(TrimEnd(Terminated(front + [last]), IsSpace), '\n') == front + [TrimEnd(last, IsSpace)]
  {
    var t := TrimEnd(last, IsSpace);
    TerminatedSnoc(front, last);
    assert (last + "\n")[..|last|] == last;
    assert TrimEnd(last + "\n", IsSpace) == t;
    TrimEndGlue(Terminated(front), last + "\n");
    assert Terminated(front) + last + "\n" == Terminated(front) + (last + "\n");
    JoinTerminated(front, t);
    TrimPrefix(last);
    SplitJoin(front + [t], '\n');
  }

  lemma {:induction false} TrimPrefix(s: string)
    ensures TrimEnd(s, IsSpace) <= s
  {
    if s != "" && IsSpace(s[|s| - 1]) {
      TrimPrefix(s[..|s| - 1]);
    }
  }

  /** The last line as it stands in the text: a responded hop without times loses its trailing blanks. */
  function LastRest(h: Hop): string {
    if h.responded && h.rtts != [] then Rest(h) else HostText(h)
  }

  /** Not a line end of any kind. */
  predicate NoBreak(c: char) { c != '\n' && c != '\r' && c != 12 as char }

  lemma TimesChars(rtts: seq<Rtt>)
    requires Exact(rtts)
    ensures All(Join(RttTexts(rtts), "  "), NoBreak)
    ensures rtts != [] ==> EndsDark(Join(RttTexts(rtts), "  "))
  {
    var texts := RttTexts(rtts);
    forall i | 0 <= i < |rtts|
      ensures All(texts[i], NoBreak) && EndsDark(texts[i])
    {
      RttChars(rtts[i]);
    }
    JoinAll(texts, "  ", NoBreak);
    if rtts != [] {
      LastOfJoin(texts, "  ");
    }
  }

  lemma RttChars(r: Rtt)
    requires r.Some? ==> r.value >= 0.0 && r.value == Hundredths(r.value) as real / 100.0
    ensures All(RttText(r), NoBreak) && EndsDark(RttText(r))
  {
    if r.Some? {
      ExactNumber(r.value);
      assert RttText(r) == FormatMs(r.value) + " ms";
      assert forall i :: 0 <= i < |FormatMs(r.value)| ==> IsNumberChar(FormatMs(r.value)[i]);
    }
  }

  lemma RestChars<A>(tryParse: string -> Option<A>, h: Hop)
    requires Readable(tryParse, h)
    ensures All(Rest(h), NoBreak) && All(LastRest(h), NoBreak) && StartsDark(Rest(h)) && StartsDark(LastRest(h)) && EndsDark(LastRest(h))
  {
    HostIsDark(tryParse, h);
    HostChars(tryParse, h);
    TimesChars(h.rtts);
  }

  lemma HostChars<A>(tryParse: string -> Option<A>, h: Hop)
    requires Readable(tryParse, h)
    ensures All(HostText(h), NoBreak)
  {
    if h.hostname.Some? {
      assert forall i :: 0 <= i < |h.hostname.value| ==> !IsSpace(h.hostname.value[i]);
    }
    if h.address.Some? {
      assert forall i :: 0 <= i < |h.address.value| ==> !IsSpace(h.address.value[i]);
    }
  }

  function Prefix(h: Hop): string { PadLeft2(Dec(h.number)) + "  " }

  lemma PrefixChars(n: nat)
    ensures All(PadLeft2(Dec(n)) + "  ", NoBreak)
  {
    assert forall i :: 0 <= i < |Dec(n)| ==> IsDigit(Dec(n)[i]);
  }

  lemma LineChars<A>(tryParse: string -> Option<A>, h: Hop)
    requires Readable(tryParse, h)
    ensures All(Line(h), NoBreak)
  {
    LineOfRest(h);
    RestChars(tryParse, h);
    PrefixChars(h.number);
    assert forall i :: 0 <= i < |Rest(h)| ==> NoBreak(Rest(h)[i]);
    assert forall i :: 0 <= i < |Prefix(h)| ==> NoBreak(Prefix(h)[i]);
    assert Line(h) == Prefix(h) + Rest(h);
  }

  lemma DarkStays(s: string)
    requires EndsDark(s)
    ensures TrimEnd(s, IsSpace) == s
  {
  }

  lemma TrimTwoBlanks(s: string)
    requires EndsDark(s)
    ensures TrimEnd(s + "  ", IsSpace) == s
  {
    assert (s + "  ")[..|s| + 1] == s + " " && (s + " ")[..|s|] == s;
    DarkStays(s);
    assert TrimEnd(s + " ", IsSpace) == s;
  }

  lemma TrimmedLine<A>(tryParse: string -> Option<A>, h: Hop)
    requires Readable(tryParse, h)
    ensures TrimEnd(Line(h), IsSpace) == Prefix(h) + LastRest(h)
  {
    LineOfRest(h);
    RestChars(tryParse, h);
    var kept := Prefix(h) + LastRest(h);
    assert EndsDark(kept);
    if h.responded && h.rtts == [] {
      assert Times(h) == "";
      assert Line(h) == kept + "  ";
      TrimTwoBlanks(kept);
    } else {
      assert Rest(h) == LastRest(h);
      DarkStays(kept);
    }
  }

  lemma LastTokens<A>(tryParse: string -> Option<A>, h: Hop)
    requires Readable(tryParse, h)
    ensures Tokens(LastRest(h)) == Tokens(Rest(h))
  {
    if h.responded && h.rtts == [] {
      TokensGlue2(HostText(h), "");
      assert Tokens("") == [];
      assert Rest(h) == HostText(h) + "  " + "";
    } else {
      assert Rest(h) == LastRest(h);
    }
  }

  lemma LineEchoes<A>(tryParse: string -> Option<A>, h: Hop)
    requires Readable(tryParse, h)
    ensures ParseLine(tryParse, Line(h)) == Echo(tryParse, h)
    ensures ParseLine(tryParse, TrimEnd(Line(h), IsSpace)) == Echo(tryParse, h)
    ensures !Overflows(Line(h)) && !Overflows(TrimEnd(Line(h), IsSpace))
  {
    RestChars(tryParse, h);
    LineOfRest(h);
    LineReadsBack(tryParse, h, Rest(h));
    TrimmedLine(tryParse, h);
    LastTokens(tryParse, h);
    LineReadsBack(tryParse, h, LastRest(h));
  }

  lemma HeaderIsNoHop<A>(tryParse: string -> Option<A>, name: string, maxHops: nat)
    ensures var s := Header(name, maxHops);
            ParseLine(tryParse, s) == [] && !Overflows(s) && TrimEnd(s, IsSpace) == s && s != ""
  {
    var s := Header(name, maxHops);
    assert s[0] == 't' && s[|s| - 1] == 'x';
    NoReturn(s);
  }

  lemma HeaderChars(name: string, maxHops: nat)
    requires All(name, NoBreak)
    ensures All(Header(name, maxHops), NoBreak)
  {
    assert forall i :: 0 <= i < |Dec(maxHops)| ==> IsDigit(Dec(maxHops)[i]);
  }

  function Echoes<A>(tryParse: string -> Option<A>, hops: seq<Hop>): seq<RawHop<A>> {
    if hops == [] then [] else Echoes(tryParse, hops[..|hops| - 1]) + Echo(tryParse, hops[|hops| - 1])
  }

  lemma LinesSnoc(header: string, hops: seq<Hop>)
    requires hops != []
    ensures [header] + Lines(hops) == [header] + Lines(hops[..|hops| - 1]) + [Line(hops[|hops| - 1])]
  {
    assert Lines(hops) == Lines(hops[..|hops| - 1]) + [Line(hops[|hops| - 1])];
  }

  lemma {:induction false} LinesEcho<A>(tryParse: string -> Option<A>, header: string, hops: seq<Hop>)
    requires ParseLine(tryParse, header) == [] && !Overflows(header) && AllReadable(tryParse, hops)
    ensures ParseLines(tryParse, [header] + Lines(hops)) == Echoes(tryParse, hops)
    ensures AllFit([header] + Lines(hops))
  {
    if hops == [] {
      assert [header] + Lines(hops) == [header] && [header][..0] == [];
    } else {
      var n := |hops| - 1;
      LinesEcho(tryParse, header, hops[..n]);
      LineEchoes(tryParse, hops[n]);
      LinesSnoc(header, hops);
      ParseSnoc(tryParse, [header] + Lines(hops[..n]), Line(hops[n]));
      FitSnoc([header] + Lines(hops[..n]), Line(hops[n]));
    }
  }

  predicate ReadsBack<A(==)>(tryParse: string -> Option<A>, name: string, hops: seq<Hop>, maxHops: nat) {
    Parse(tryParse, Render(name, hops, maxHops)) == Some(Echoes(tryParse, hops))
  }

  lemma EmptyRoundTrip<A>(tryParse: string -> Option<A>, name: string, maxHops: nat)
    requires All(name, NoBreak)
    ensures ReadsBack(tryParse, name, [], maxHops)
  {
    HeaderIsNoHop(tryParse, name, maxHops);
    HeaderLines(name, maxHops);
    ParseSnoc(tryParse, [], Header(name, maxHops));
    FitSnoc([], Header(name, maxHops));
    assert ParseLines(tryParse, []) == [];
  }

  lemma HeaderLines(name: string, maxHops: nat)
    requires All(name, NoBreak) && TrimEnd(Header(name, maxHops), IsSpace) == Header(name, maxHops)
    ensures Split(Render(name, [], maxHops), '\n') == [] + [Header(name, maxHops)]
  {
    var header := Header(name, maxHops);
    HeaderChars(name, maxHops);
    assert [header] + Lines([]) == [] + [header];
    PlainText([] + [header]);
    RenderedLines([], header);
  }

  /** The lines of the text: all but the last as they were written. */
  lemma TextLines<A>(tryParse: string -> Option<A>, header: string, hops: seq<Hop>)
    requires All(header, NoBreak) && hops != [] && AllReadable(tryParse, hops)
    requires TrimEnd(Line(hops[|hops| - 1]), IsSpace) != ""
    ensures Split(TrimEnd(UnixLines(Terminated([header] + Lines(hops))), IsSpace), '\n')
         == [header] + Lines(hops[..|hops| - 1]) + [TrimEnd(Line(hops[|hops| - 1]), IsSpace)]
  {
    FrontChars(tryParse, header, hops);
    PlainText([header] + Lines(hops));
    LinesSnoc(header, hops);
    LastOfLines([header] + Lines(hops[..|hops| - 1]), Line(hops[|hops| - 1]));
    RenderedLines([header] + Lines(hops[..|hops| - 1]), Line(hops[|hops| - 1]));
  }

  lemma LastOfLines(front: seq<string>, last: string)
    requires forall i :: 0 <= i < |front + [last]| ==> All((front + [last])[i], NoBreak)
    ensures Lacks(last, '\n') && forall i :: 0 <= i < |front| ==> Lacks(front[i], '\n')
  {
    assert (front + [last])[|front|] == last;
    assert forall i :: 0 <= i < |front| ==> (front + [last])[i] == front[i];
  }

  /** The lines of a text of one hop or more, read. */
  lemma LinesReadBack<A>(tryParse: string -> Option<A>, header: string, hops: seq<Hop>)
    requires ParseLine(tryParse, header) == [] && !Overflows(header) && hops != [] && AllReadable(tryParse, hops)
    ensures var n := |hops| - 1;
            var lines := [header] + Lines(hops[..n]) + [TrimEnd(Line(hops[n]), IsSpace)];
            AllFit(lines) && ParseLines(tryParse, lines) == Echoes(tryParse, hops)
  {
    var n := |hops| - 1;
    var front, t := [header] + Lines(hops[..n]), TrimEnd(Line(hops[n]), IsSpace);
    LinesEcho(tryParse, header, hops[..n]);
    LineEchoes(tryParse, hops[n]);
    ParseSnoc(tryParse, front, t);
    FitSnoc(front, t);
  }

  lemma SomeHops<A>(tryParse: string -> Option<A>, name: string, hops: seq<Hop>, maxHops: nat)
    requires All(name, NoBreak) && hops != [] && AllReadable(tryParse, hops)
    ensures ReadsBack(tryParse, name, hops, maxHops)
  {
    var header := Header(name, maxHops);
    HeaderIsNoHop(tryParse, name, maxHops);
    HeaderChars(name, maxHops);
    TrimmedLine(tryParse, hops[|hops| - 1]);
    RestChars(tryParse, hops[|hops| - 1]);
    TextLines(tryParse, header, hops);
    LinesReadBack(tryParse, header, hops);
  }

  /** The parser reads a rendered trace back hop by hop; `EchoOf` says exactly what each hop comes back
      as, and a hop comes back unless it carries neither an address nor a time. */
  lemma RoundTrip<A>(tryParse: string -> Option<A>, name: string, hops: seq<Hop>, maxHops: nat)
    requires All(name, NoBreak) && AllReadable(tryParse, hops)
    ensures ReadsBack(tryParse, name, hops, maxHops)
  {
    if hops == [] {
      EmptyRoundTrip(tryParse, name, maxHops);
    } else {
      SomeHops(tryParse, name, hops, maxHops);
    }
  }

  /** The first line names the target, by its address alone if the address was typed in some letter case, and says
      how many hops there may be. */
  lemma FirstLine<A>(tryParse: string -> Option<A>, destination: string, address: string, hops: seq<Hop>, maxHops: nat)
    requires All(destination, NoBreak) && All(address, NoBreak) && AllReadable(tryParse, hops)
    ensures var target := if Lower(destination) == Lower(address) then address else destination + " (" + address + ")";
            Split(Render(Label(destination, address), hops, maxHops), '\n')[0]
              == "traceroute to " + target + ", " + Dec(maxHops) + " hops max"
  {
    var name := Label(destination, address);
    HeaderIsNoHop(tryParse, name, maxHops);
    HeaderChars(name, maxHops);
    if hops == [] {
      HeaderLines(name, maxHops);
    } else {
      TrimmedLine(tryParse, hops[|hops| - 1]);
      RestChars(tryParse, hops[|hops| - 1]);
      TextLines(tryParse, Header(name, maxHops), hops);
    }
  }

  lemma FrontChars<A>(tryParse: string -> Option<A>, header: string, hops: seq<Hop>)
    requires All(header, NoBreak) && AllReadable(tryParse, hops)
    ensures forall i :: 0 <= i < 1 + |hops| ==> All(([header] + Lines(hops))[i], NoBreak)
  {
    forall i | 0 <= i < |hops|
      ensures All(Lines(hops)[i], NoBreak)
    {
      LineChars(tryParse, hops[i]);
    }
  }

  // ----- what survives

  /** A hop that leaves nothing to read: no time, and no address but in parentheses or redacted. */
  predicate Unreadable<A>(tryParse: string -> Option<A>, h: Hop) {
    h.responded && h.rtts == []
    && (h.redacted || (h.address.Some? && h.hostname.Some? && NameAddress(tryParse, h.hostname.value).None?))
  }

  predicate NoneUnreadable<A>(tryParse: string -> Option<A>, hops: seq<Hop>) {
    forall i :: 0 <= i < |hops| ==> !Unreadable(tryParse, hops[i])
  }

  lemma NoneUnreadableSnoc<A>(tryParse: string -> Option<A>, hops: seq<Hop>)
    requires hops != []
    ensures NoneUnreadable(tryParse, hops)
       <==> NoneUnreadable(tryParse, hops[..|hops| - 1]) && !Unreadable(tryParse, hops[|hops| - 1])
  {
    assert forall i :: 0 <= i < |hops| - 1 ==> hops[i] == hops[..|hops| - 1][i];
  }

  /** As many hops come back as were written exactly if none is unreadable; then they come back one for
      one, in order. */
  lemma {:induction false} EchoesInOrder<A>(tryParse: string -> Option<A>, hops: seq<Hop>)
    requires AllReadable(tryParse, hops)
    ensures |Echoes(tryParse, hops)| <= |hops|
    ensures |Echoes(tryParse, hops)| == |hops| <==> NoneUnreadable(tryParse, hops)
    ensures |Echoes(tryParse, hops)| == |hops| ==> forall i :: 0 <= i < |hops| ==> Echoes(tryParse, hops)[i] == EchoOf(tryParse, hops[i])
  {
    if hops != [] {
      var n := |hops| - 1;
      FrontReadable(tryParse, hops);
      EchoesInOrder(tryParse, hops[..n]);
      NoneUnreadableSnoc(tryParse, hops);
      assert Kept(EchoOf(tryParse, hops[n])) <==> !Unreadable(tryParse, hops[n]);
    }
  }

  /** The whole round trip, hop by hop: numbers always come back, and no hop is lost or added unless one
      is unreadable. */
  lemma CompleteRoundTrip<A>(tryParse: string -> Option<A>, name: string, hops: seq<Hop>, maxHops: nat)
    requires All(name, NoBreak) && AllReadable(tryParse, hops)
    ensures var read := Parse(tryParse, Render(name, hops, maxHops));
            && read.Some?
            && (|read.value| == |hops| <==> NoneUnreadable(tryParse, hops))
            && (|read.value| == |hops| ==>
                  forall i :: 0 <= i < |hops| ==>
                    read.value[i] == EchoOf(tryParse, hops[i]) && read.value[i].number == hops[i].number)
  {
    RoundTrip(tryParse, name, hops, maxHops);
    EchoesInOrder(tryParse, hops);
  }

  /** Whether a parsed hop answered, as the service decides it. */
  predicate Answered<A>(h: RawHop<A>) { h.address.Some? || AnyRtt(h.rtts) }

  /** The hop number always survives; the times survive for a hop that is redacted or shows an address;
      an address that is shown without a name survives. */
  lemma Survives<A>(tryParse: string -> Option<A>, h: Hop)
    requires Readable(tryParse, h)
    ensures EchoOf(tryParse, h).number == h.number
    ensures h.responded && (h.redacted || h.address.Some?) ==> EchoOf(tryParse, h).rtts == h.rtts
    ensures h.responded && !h.redacted && h.address.Some? && h.hostname.None? ==> EchoOf(tryParse, h).address == tryParse(h.address.value)
  {
  }

  /** Whether a hop answered survives exactly if it did not, or shows its address without a name, or has
      a time, or has a name that reads as an address. */
  lemma AnswerSurvives<A>(tryParse: string -> Option<A>, h: Hop)
    requires Readable(tryParse, h)
    ensures Answered(EchoOf(tryParse, h)) == h.responded <==>
              || !h.responded
              || AnyRtt(h.rtts)
              || (!h.redacted && h.address.Some? &&
                    (h.hostname.None? || NameAddress(tryParse, h.hostname.value).Some?))
  {
    var e := EchoOf(tryParse, h);
    if h.responded && AnyRtt(h.rtts) {
      var i :| 0 <= i < |h.rtts| && h.rtts[i].Some?;
      if h.redacted || h.address.Some? {
        assert e.rtts[i].Some?;
      } else {
        assert e.rtts[i + 1] == h.rtts[i];
      }
    }
  }

  /** So it is not always preserved: a redacted hop without a time comes back as one that did not answer. */
  lemma RedactedAnswerLost<A>(tryParse: string -> Option<A>)
    ensures var h := Hop(1, true, true, None, None, [None]);
            Readable(tryParse, h) && !Answered(EchoOf(tryParse, h))
  {
  }
}
