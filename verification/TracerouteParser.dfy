/** The parser of traceroute output (src/Diagnostics/Probes/Parsers.cs). `tryParse` stands for the
    library's address parser. */
module TracerouteParser {
  import opened Options
  import opened Text
  import opened Numerals
  import opened TextRenderer
  import opened TracerouteService

  function Power10(n: nat): (p: nat)
    ensures p > 0
  {
    if n == 0 then 1 else 10 * Power10(n - 1)
  }

  /** A whole part, and a fraction with its denominator. */
  function Decimal(whole: nat, fraction: nat, scale: nat): real
    requires scale > 0
  {
    whole as real + fraction as real / scale as real
  }

  /** The number parser, on unsigned decimals: the only numbers that traceroute prints. */
  function ParseNumber(token: string): Option<real> {
    var parts := Split(token, '.');
    if |parts| == 1 && token != "" && All(token, IsDigit) then Some(DecValue(token) as real)
    else if |parts| == 2 && |token| > 1 && All(parts[0], IsDigit) && All(parts[1], IsDigit) then
      Some(Decimal(DecValue(parts[0]), DecValue(parts[1]), Power10(|parts[1]|)))
    else None
  }

  function NonEmpty(parts: seq<string>): seq<string> {
    if parts == [] then [] else if parts[0] == "" then NonEmpty(parts[1..]) else [parts[0]] + NonEmpty(parts[1..])
  }

  /** `Split(' ', RemoveEmptyEntries)`. */
  function Tokens(s: string): seq<string> {
    NonEmpty(Split(s, ' '))
  }

  function DigitCount(s: string): (k: nat)
    ensures k <= |s| && All(s[..k], IsDigit) && (k < |s| ==> !IsDigit(s[k]))
  {
    if s == "" || !IsDigit(s[0]) then 0 else 1 + DigitCount(s[1..])
  }

  const MAX_INT := 0x7fff_ffff

  datatype Numbered = Numbered(number: nat, rest: string)

  /** The pattern of a hop: a number after optional white space, white space, and the rest. */
  function HopPattern(line: string): Option<Numbered> {
    var s := TrimStart(line, IsSpace);
    var k := DigitCount(s);
    if k == 0 || k == |s| || !IsSpace(s[k]) then None
    else Some(Numbered(DecValue(s[..k]), TrimStart(s[k..], IsSpace)))
  }

  datatype Found<A> = Found(address: Option<A>, rtts: seq<Rtt>)

  predicate IsRtt(tokens: seq<string>) {
    |tokens| > 1 && ParseNumber(tokens[0]).Some? && tokens[1] == "ms"
  }

  predicate LooksLikeAddress(token: string) { !Lacks(token, '.') || !Lacks(token, ':') }

  /** What a list of tokens says: the first address in it and all round-trip times. */
  function Scan<A>(tryParse: string -> Option<A>, tokens: seq<string>): Found<A> {
    if tokens == [] then Found(None, [])
    else
      var rest := Scan(tryParse, tokens[1..]);
      if tokens[0] == "*" then rest.(rtts := [None] + rest.rtts)
      else if tokens[0] != "" && tokens[0][0] == '!' then rest
      else if IsRtt(tokens) then
        var after := Scan(tryParse, tokens[2..]);
        after.(rtts := [ParseNumber(tokens[0])] + after.rtts)
      else if LooksLikeAddress(tokens[0]) && tryParse(tokens[0]).Some? then rest.(address := tryParse(tokens[0]))
      else rest
  }

  predicate IsReturn(c: char) { c == '\r' }

  predicate Kept<A>(h: RawHop<A>) { h.rtts != [] || h.address.Some? }

  function ParseLine<A>(tryParse: string -> Option<A>, line: string): seq<RawHop<A>> {
    match HopPattern(TrimEnd(line, IsReturn))
    case None => []
    case Some(n) =>
      var f := Scan(tryParse, Tokens(n.rest));
      var hop := RawHop(n.number, f.address, f.rtts);
      if Kept(hop) then [hop] else []
  }

  function ParseLines<A>(tryParse: string -> Option<A>, lines: seq<string>): seq<RawHop<A>> {
    if lines == [] then []
    else ParseLines(tryParse, lines[..|lines| - 1]) + ParseLine(tryParse, lines[|lines| - 1])
  }

  /** A hop number that does not fit 32 bits, for which the number parser throws. */
  predicate Overflows(line: string) {
    var pattern := HopPattern(TrimEnd(line, IsReturn));
    pattern.Some? && pattern.value.number > MAX_INT
  }

  predicate AllFit(lines: seq<string>) { forall i :: 0 <= i < |lines| ==> !Overflows(lines[i]) }

  /** The hops of the output, or nothing if an exception is thrown. */
  function Parse<A>(tryParse: string -> Option<A>, output: string): Option<seq<RawHop<A>>> {
    var lines := Split(output, '\n');
    if AllFit(lines) then Some(ParseLines(tryParse, lines)) else None
  }

  lemma ParseSnoc<A>(tryParse: string -> Option<A>, front: seq<string>, t: string)
    ensures ParseLines(tryParse, front + [t]) == ParseLines(tryParse, front) + ParseLine(tryParse, t)
  {
    assert (front + [t])[..|front|] == front;
  }

  lemma FitSnoc(front: seq<string>, t: string)
    ensures AllFit(front + [t]) <==> AllFit(front) && !Overflows(t)
  {
    assert forall i :: 0 <= i < |front| ==> (front + [t])[i] == front[i];
    assert (front + [t])[|front|] == t;
  }

  /** What the loop knows after some lines. */
  ghost predicate ReadSoFar<A>(tryParse: string -> Option<A>, lines: seq<string>, hops: seq<RawHop<A>>) {
    AllFit(lines) && hops == ParseLines(tryParse, lines)
  }

  lemma ReadOneMore<A>(tryParse: string -> Option<A>, lines: seq<string>, i: nat, hops: seq<RawHop<A>>)
    requires i < |lines| && ReadSoFar(tryParse, lines[..i], hops) && !Overflows(lines[i])
    ensures ReadSoFar(tryParse, lines[..i + 1], hops + ParseLine(tryParse, lines[i]))
  {
    assert lines[..i + 1] == lines[..i] + [lines[i]];
    ParseSnoc(tryParse, lines[..i], lines[i]);
    FitSnoc(lines[..i], lines[i]);
  }

  method ParseOutput<A>(tryParse: string -> Option<A>, output: string) returns (result: Option<seq<RawHop<A>>>)
    ensures result == Parse(tryParse, output)
  {
    var hops := [];
    var lines := Split(output, '\n');
    for i := 0 to |lines|
      invariant ReadSoFar(tryParse, lines[..i], hops)
    {
      var fits, hop := ParseOne(tryParse, lines[i]);
      if !fits {
        return None;
      }
      ReadOneMore(tryParse, lines, i, hops);
      hops := hops + hop;
    }
    assert lines[..|lines|] == lines;
    result := Some(hops);
  }

  /** One line: its hop if it has one, unless the hop number overflows. */
  method ParseOne<A>(tryParse: string -> Option<A>, line: string) returns (fits: bool, hop: seq<RawHop<A>>)
    ensures fits <==> !Overflows(line)
    ensures fits ==> hop == ParseLine(tryParse, line)
  {
    fits, hop := true, [];
    var pattern := HopPattern(TrimEnd(line, IsReturn));
    if pattern.Some? {
      if pattern.value.number > MAX_INT {
        fits := false;
        return;
      }
      var address, rtts := ScanTokens(tryParse, Tokens(pattern.value.rest));
      if |rtts| > 0 || address.Some? {
        hop := [RawHop(pattern.value.number, address, rtts)];
      }
    }
  }

  /** What has been found so far, and what the rest of the tokens adds. */
  function Resumed<A>(address: Option<A>, rtts: seq<Rtt>, rest: Found<A>): Found<A> {
    Found(if address.Some? then address else rest.address, rtts + rest.rtts)
  }

  lemma OneMore<A>(address: Option<A>, rtts: seq<Rtt>, r: Rtt, rest: Found<A>)
    ensures Resumed(address, rtts, rest.(rtts := [r] + rest.rtts)) == Resumed(address, rtts + [r], rest)
  {
  }

  lemma ScanRest<A>(tryParse: string -> Option<A>, tokens: seq<string>, i: nat)
    requires i < |tokens|
    ensures var token, rest := tokens[i], Scan(tryParse, tokens[i + 1..]);
            Scan(tryParse, tokens[i..]) ==
              if token == "*" then rest.(rtts := [None] + rest.rtts)
              else if token != "" && token[0] == '!' then rest
              else if ParseNumber(token).Some? && i + 1 < |tokens| && tokens[i + 1] == "ms" then
                var after := Scan(tryParse, tokens[i + 2..]);
                after.(rtts := [ParseNumber(token)] + after.rtts)
              else if LooksLikeAddress(token) && tryParse(token).Some? then rest.(address := tryParse(token))
              else rest
  {
    assert tokens[i..][1..] == tokens[i + 1..];
    if i + 1 < |tokens| {
      assert tokens[i..][2..] == tokens[i + 2..];
    }
  }

  /** The loop over the tokens of one line. */
  method ScanTokens<A>(tryParse: string -> Option<A>, tokens: seq<string>) returns (address: Option<A>, rtts: seq<Rtt>)
    ensures Found(address, rtts) == Scan(tryParse, tokens)
  {
    address, rtts := None, [];
    var i := 0;
    while i < |tokens|
      invariant 0 <= i <= |tokens|
      invariant Scan(tryParse, tokens) == Resumed(address, rtts, Scan(tryParse, tokens[i..]))
    {
      ScanRest(tryParse, tokens, i);
      var token := tokens[i];
      if token == "*" {
        OneMore(address, rtts, None, Scan(tryParse, tokens[i + 1..]));
        rtts := rtts + [None];
      } else if token != "" && token[0] == '!' {
      } else if ParseNumber(token).Some? && i + 1 < |tokens| && tokens[i + 1] == "ms" {
        OneMore(address, rtts, ParseNumber(token), Scan(tryParse, tokens[i + 2..]));
        rtts := rtts + [ParseNumber(token)];
        i := i + 1;
      } else if LooksLikeAddress(token) && tryParse(token).Some? {
        if address.None? {
          address := tryParse(token);
        }
      }
      i := i + 1;
    }
  }

  // ----- what a number means

  /** A text of digits, which may be empty. */
  predicate Digits(s: string) { All(s, IsDigit) }

  lemma SplitAtPoint(w: string, f: string)
    requires Digits(w) && Digits(f)
    ensures Split(w + "." + f, '.') == [w, f]
  {
    SplitGlue(w, '.', f);
    SplitWhole(w, '.');
    SplitWhole(f, '.');
  }

  lemma PointNumber(w: string, f: string)
    requires Digits(w) && Digits(f)
    ensures w + f != "" ==> ParseNumber(w + "." + f) == Some(Decimal(DecValue(w), DecValue(f), Power10(|f|)))
    ensures w + f == "" ==> ParseNumber(w + "." + f) == None
  {
    SplitAtPoint(w, f);
    assert (w + "." + f)[|w|] == '.';
  }

  lemma DigitsNumber(w: string)
    requires Digits(w) && w != ""
    ensures ParseNumber(w) == Some(DecValue(w) as real)
  {
    SplitWhole(w, '.');
  }

  /** The value of a text of digits: the last digit counts one, and every other digit ten times what it counts
      without the last one. */
  lemma DigitByDigit(w: string, d: char)
    requires Digits(w) && IsDigit(d)
    ensures ParseNumber([d]) == Some(DigitValue(d) as real)
    ensures w != "" ==> ParseNumber(w).Some? && ParseNumber(w + [d]) == Some(10.0 * ParseNumber(w).value + DigitValue(d) as real)
  {
    OneDigit(d);
    if w != "" {
      DecSnoc(w, d);
      DigitsNumber(w);
      DigitsNumber(w + [d]);
    }
  }

  lemma OneDigit(d: char)
    requires IsDigit(d)
    ensures ParseNumber([d]) == Some(DigitValue(d) as real)
  {
    DigitsNumber([d]);
    assert [d][..0] == "";
  }

  lemma ZeroNumber()
    ensures DecValue("0") == 0 && DecValue("") == 0 && Power10(0) == 1 && Power10(1) == 10
  {
    assert "0"[..0] == "";
  }

  /** A number is its whole part plus its fraction, either of which may be missing. */
  lemma WholeAndFraction(w: string, f: string)
    requires Digits(w) && Digits(f) && w + f != ""
    ensures ParseNumber("0." + f).Some? && ParseNumber(w + "." + f).Some?
    ensures var fraction, n := ParseNumber("0." + f).value, ParseNumber(w + "." + f).value;
            && (f == "" ==> fraction == 0.0)
            && (w == "" ==> n == fraction)
            && (w != "" ==> ParseNumber(w).Some? && n == ParseNumber(w).value + fraction)
  {
    ZeroNumber();
    PointNumber(w, f);
    PointNumber("0", f);
    assert "0" + "." + f == "0." + f;
    if w != "" {
      DigitsNumber(w);
    }
  }

  lemma {:induction false} DecCons(d: char, f: string)
    requires IsDigit(d) && Digits(f)
    ensures DecValue([d] + f) == DigitValue(d) * Power10(|f|) + DecValue(f)
  {
    if f == "" {
      assert [d] + f == "" + [d];
      DecSnoc("", d);
    } else {
      var front := f[..|f| - 1];
      DecCons(d, front);
      assert ([d] + f)[..|f|] == [d] + front;
      Shifted(DigitValue(d), Power10(|front|), DecValue(front), DigitValue(f[|f| - 1]));
    }
  }

  lemma Shifted(d: nat, p: nat, n: nat, e: nat)
    ensures 10 * (d * p + n) + e == d * (10 * p) + (10 * n + e)
  {
  }

  lemma OneTenth(d: nat, n: nat, p: nat)
    requires p > 0
    ensures 10.0 * Decimal(0, d * p + n, 10 * p) == d as real + Decimal(0, n, p)
  {
    var x, y := (d * p + n) as real, p as real;
    assert x == d as real * y + n as real;
    assert x / (10.0 * y) * 10.0 == x / y;
  }

  /** Fractions of any length: ten times a fraction is its first digit plus the fraction after it. */
  lemma FractionDigitByDigit(d: char, f: string)
    requires IsDigit(d) && Digits(f)
    ensures ParseNumber("0." + [d] + f).Some? && ParseNumber("0." + f).Some?
    ensures 10.0 * ParseNumber("0." + [d] + f).value == DigitValue(d) as real + ParseNumber("0." + f).value
    ensures f == "" ==> ParseNumber("0." + [d] + f).value == DigitValue(d) as real / 10.0
  {
    ZeroNumber();
    PointNumber("0", f);
    PointNumber("0", [d] + f);
    assert "0" + "." + f == "0." + f && "0" + "." + ([d] + f) == "0." + [d] + f;
    DecCons(d, f);
    OneTenth(DigitValue(d), DecValue(f), Power10(|f|));
  }

  /** Every whole number of thousandths, written with three decimals, reads as itself. */
  lemma ThousandthsReadBack(n: nat)
    ensures var text := Dec(n / 1000) + "." + [DigitChar(n / 100 % 10), DigitChar(n / 10 % 10), DigitChar(n % 10)];
            ParseNumber(text) == Some(n as real / 1000.0)
  {
    var q, a, b, c := n / 1000, DigitChar(n / 100 % 10), DigitChar(n / 10 % 10), DigitChar(n % 10);
    PointNumber(Dec(q), [a, b, c]);
    DecRoundTrip(q);
    ThreeDigits(a, b, c);
    DigitsOf(n);
    Mills(n, q, n / 100 % 10, n / 10 % 10, n % 10);
  }

  lemma DigitsOf(n: nat)
    ensures n == 1000 * (n / 1000) + 100 * (n / 100 % 10) + 10 * (n / 10 % 10) + n % 10
  {
    var x, y := n / 10, n / 100;
    assert y == x / 10 && n / 1000 == y / 10;
  }

  lemma Mills(n: nat, q: nat, a: nat, b: nat, c: nat)
    requires n == 1000 * q + 100 * a + 10 * b + c
    ensures Decimal(q, 100 * a + 10 * b + c, 1000) == n as real / 1000.0
  {
  }

  lemma ThreeDigits(a: char, b: char, c: char)
    requires IsDigit(a) && IsDigit(b) && IsDigit(c)
    ensures DecValue([a, b, c]) == 100 * DigitValue(a) + 10 * DigitValue(b) + DigitValue(c) && Power10(3) == 1000
  {
    assert [a, b, c][..2] == [a, b] && [a, b][..1] == [a] && [a][..0] == "";
    assert DecValue([a]) == DigitValue(a) && DecValue([a, b]) == 10 * DigitValue(a) + DigitValue(b);
    assert Power10(1) == 10 && Power10(2) == 100;
  }

  /** Which texts are numbers: digits, perhaps with one point before, between or behind them. */
  lemma NumbersAre(token: string)
    ensures ParseNumber(token).Some? <==> (token != "" && Digits(token)) || exists w, f :: HasPoint(token, w, f)
  {
    if ParseNumber(token).Some? && !Digits(token) {
      var parts := Split(token, '.');
      JoinSplit(token, '.');
      assert parts[1..] == [parts[1]] && Join([parts[1]], ".") == parts[1];
      assert HasPoint(token, parts[0], parts[1]);
    }
    if token != "" && Digits(token) {
      DigitsNumber(token);
    }
    if w, f :| HasPoint(token, w, f) {
      PointNumber(w, f);
    }
  }

  /** Digits, a point and digits, but not a point alone. */
  predicate HasPoint(token: string, w: string, f: string) {
    Digits(w) && Digits(f) && w + f != "" && token == w + "." + f
  }
}
