/** The technical text of a traceroute (src/Diagnostics/Services/TextRenderer.cs). Round-trip times are
    reals in milliseconds. */
module TextRenderer {
  import opened Options
  import opened Text
  import opened Numerals

  type Rtt = Option<real>

  datatype Hop = Hop(
    number: nat,
    responded: bool,
    redacted: bool,
    address: Option<string>,
    hostname: Option<string>,
    rtts: seq<Rtt>)

  /** A number of milliseconds in hundredths, rounded half up. */
  function Hundredths(v: real): int {
    (v * 100.0 + 0.5).Floor
  }

  /** The format `0.##`: at most two decimals after the culture's separator, without trailing zeros. */
  function FormatWith(n: nat, separator: char): string {
    Dec(n / 100)
    + if n % 100 == 0 then ""
      else if n % 10 == 0 then [separator] + [DigitChar(n / 10 % 10)]
      else [separator] + [DigitChar(n / 10 % 10), DigitChar(n % 10)]
  }

  /** The build fixes the invariant culture (`InvariantGlobalization` in Directory.Build.props). */
  const SEPARATOR := '.'

  function FormatHundredths(n: nat): string {
    FormatWith(n, SEPARATOR)
  }

  function FormatMs(v: real): string {
    if v < 0.0 then "-" + FormatHundredths(if Hundredths(-v) < 0 then 0 else Hundredths(-v)) else FormatHundredths(Hundredths(v))
  }

  function RttText(r: Rtt): string {
    if r.Some? then FormatMs(r.value) + " ms" else "*"
  }

  function RttTexts(rtts: seq<Rtt>): (t: seq<string>)
    ensures |t| == |rtts| && forall i :: 0 <= i < |t| ==> t[i] == RttText(rtts[i])
  {
    seq(|rtts|, i requires 0 <= i < |rtts| => RttText(rtts[i]))
  }

  function HostText(h: Hop): string {
    if !h.responded then "* * *"
    else if h.redacted then "[internal network]"
    else if h.hostname.Some? && h.address.Some? then h.hostname.value + " (" + h.address.value + ")"
    else if h.address.Some? then h.address.value
    else "*"
  }

  function PadLeft2(s: string): string {
    if |s| < 2 then " " + s else s
  }

  function Line(h: Hop): string {
    PadLeft2(Dec(h.number)) + "  " + HostText(h) + if h.responded then "  " + Join(RttTexts(h.rtts), "  ") else ""
  }

  /** How the target is named: by its address alone if that is what was typed. */
  function Label(destination: string, address: string): string {
    if Lower(destination) == Lower(address) then address else destination + " (" + address + ")"
  }

  function Header(name: string, maxHops: nat): string {
    "traceroute to " + name + ", " + Dec(maxHops) + " hops max"
  }

  function Terminated(lines: seq<string>): string {
    if lines == [] then "" else Terminated(lines[..|lines| - 1]) + lines[|lines| - 1] + "\n"
  }

  function Lines(hops: seq<Hop>): (l: seq<string>)
    ensures |l| == |hops| && forall i :: 0 <= i < |l| ==> l[i] == Line(hops[i])
  {
    seq(|hops|, i requires 0 <= i < |hops| => Line(hops[i]))
  }

  /** Every kind of line end (a carriage return, with or without a line feed, or a form feed) as a
      line feed. */
  function UnixLines(s: string): string {
    if s == "" then ""
    else if |s| > 1 && s[0] == '\r' && s[1] == '\n' then "\n" + UnixLines(s[2..])
    else if s[0] == '\r' || s[0] == 12 as char then "\n" + UnixLines(s[1..])
    else [s[0]] + UnixLines(s[1..])
  }

  /** The whole text, with `\n` line ends and nothing after the last line. */
  function Render(name: string, hops: seq<Hop>, maxHops: nat): string {
    TrimEnd(UnixLines(Terminated([Header(name, maxHops)] + Lines(hops))), IsSpace)
  }

  lemma TerminatedSnoc(lines: seq<string>, line: string)
    ensures Terminated(lines + [line]) == Terminated(lines) + line + "\n"
  {
    assert (lines + [line])[..|lines|] == lines;
  }

  method Traceroute(destination: string, address: string, hops: seq<Hop>, maxHops: nat) returns (text: string)
    ensures text == Render(Label(destination, address), hops, maxHops)
  {
    var builder := AppendLines(Header(Label(destination, address), maxHops), hops);
    text := TrimEnd(UnixLines(builder), IsSpace);
  }

  lemma LinesStart(header: string, hops: seq<Hop>)
    ensures Terminated([header] + Lines(hops)[..0]) == header + "\n"
  {
    assert [header] + Lines(hops)[..0] == [] + [header];
    TerminatedSnoc([], header);
    assert "" + header == header;
  }

  lemma LinesStep(header: string, hops: seq<Hop>, i: nat)
    requires i < |hops|
    ensures Terminated([header] + Lines(hops)[..i + 1]) == Terminated([header] + Lines(hops)[..i]) + Line(hops[i]) + "\n"
  {
    var before := [header] + Lines(hops)[..i];
    assert [header] + Lines(hops)[..i + 1] == before + [Line(hops[i])];
    TerminatedSnoc(before, Line(hops[i]));
  }

  /** The header and one line for each hop, appended in a loop. */
  method AppendLines(header: string, hops: seq<Hop>) returns (builder: string)
    ensures builder == Terminated([header] + Lines(hops))
  {
    builder := header + "\n";
    LinesStart(header, hops);
    for i := 0 to |hops|
      invariant builder == Terminated([header] + Lines(hops)[..i])
    {
      var line := HopLine(hops[i]);
      LinesStep(header, hops, i);
      builder := builder + line + "\n";
    }
    assert Lines(hops)[..|hops|] == Lines(hops);
  }

  method HopLine(hop: Hop) returns (line: string)
    ensures line == Line(hop)
  {
    var rtts := Join(RttTexts(hop.rtts), "  ");
    var host := Host(hop);
    line := PadLeft2(Dec(hop.number)) + "  " + host + if hop.responded then "  " + rtts else "";
  }

  /** The switch over what is known about a hop. */
  method Host(hop: Hop) returns (host: string)
    ensures host == HostText(hop)
  {
    if !hop.responded {
      host := "* * *";
    } else if hop.redacted {
      host := "[internal network]";
    } else if hop.hostname.Some? && hop.address.Some? {
      host := hop.hostname.value + " (" + hop.address.value + ")";
    } else if hop.address.Some? {
      host := hop.address.value;
    } else {
      host := "*";
    }
  }
}
