/** What a traceroute prints on a line: stars, times, annotations, addresses and other words in any order; and
    what the parser (src/Diagnostics/Probes/Parsers.cs) makes of it. */
module TracerouteLines {
  import opened Options
  import opened Text
  import opened Numerals
  import opened TextRenderer
  import opened TracerouteService
  import opened TracerouteParser
  import opened TracerouteRoundTrip

  datatype Item = Star | Time(number: string) | Note(word: string) | Address(word: string) | Other(word: string)

  function Words(item: Item): (w: seq<string>)
    ensures w != []
  {
    match item
    case Star => ["*"]
    case Time(number) => [number, "ms"]
    case Note(word) => [word]
    case Address(word) => [word]
    case Other(word) => [word]
  }

  predicate IsBare(word: string) { word != "" && word != "*" && word[0] != '!' }

  /** What makes an item what it is. */
  predicate Printed<A>(tryParse: string -> Option<A>, item: Item) {
    match item
    case Star => true
    case Time(number) => ParseNumber(number).Some?
    case Note(word) => word != "" && word[0] == '!'
    case Address(word) => IsBare(word) && LooksLikeAddress(word) && tryParse(word).Some?
    case Other(word) => IsBare(word) && (LooksLikeAddress(word) ==> tryParse(word).None?)
  }

  /** A number that is not a time is not followed by the unit. */
  predicate Apart(item: Item, next: Item) {
    (item.Address? || item.Other?) && ParseNumber(item.word).Some? ==> next != Other("ms")
  }

  predicate Readings<A>(tryParse: string -> Option<A>, items: seq<Item>) {
    && (forall i :: 0 <= i < |items| ==> Printed(tryParse, items[i]))
    && (forall i :: 0 <= i < |items| - 1 ==> Apart(items[i], items[i + 1]))
  }

  function AllWords(items: seq<Item>): seq<string> {
    if items == [] then [] else Words(items[0]) + AllWords(items[1..])
  }

  /** The times of a line in their order, a star being a time that is missing. */
  function TimesOf(items: seq<Item>): seq<Rtt> {
    if items == [] then []
    else
      (match items[0] case Star => [None] case Time(number) => [ParseNumber(number)] case _ => []) + TimesOf(items[1..])
  }

  /** The first address of a line. */
  predicate FirstAddress<A(==)>(tryParse: string -> Option<A>, items: seq<Item>, address: Option<A>) {
    if address.None? then forall i :: 0 <= i < |items| ==> !items[i].Address?
    else exists i :: 0 <= i < |items| && IsFirst(items, i) && tryParse(items[i].word) == address
  }

  predicate IsFirst(items: seq<Item>, i: nat)
    requires i < |items|
  {
    items[i].Address? && forall j :: 0 <= j < i ==> !items[j].Address?
  }

  lemma NumberStarts(number: string)
    requires ParseNumber(number).Some?
    ensures IsBare(number) && number != "ms"
  {
    NumbersAre(number);
    if !Digits(number) {
      var w, f :| HasPoint(number, w, f);
    }
  }

  lemma HeadWord<A>(tryParse: string -> Option<A>, items: seq<Item>)
    requires items != [] && Printed(tryParse, items[0])
    ensures AllWords(items) != [] && (AllWords(items)[0] == "ms" ==> items[0] == Other("ms"))
  {
    if items[0].Time? {
      NumberStarts(items[0].number);
    }
  }

  /** An item of one word is that word, and not a time. */
  lemma OneWord<A>(tryParse: string -> Option<A>, items: seq<Item>, word: string)
    requires items != [] && Words(items[0]) == [word]
    requires |items| > 1 ==> Printed(tryParse, items[1]) && (ParseNumber(word).Some? ==> items[1] != Other("ms"))
    ensures AllWords(items)[0] == word && AllWords(items)[1..] == AllWords(items[1..]) && !IsRtt(AllWords(items))
  {
    if |items| > 1 {
      HeadWord(tryParse, items[1..]);
    }
  }

  /** The words of a line are read as the items they are: all times in their order, and the first address. */
  lemma {:induction false} ItemsRead<A>(tryParse: string -> Option<A>, items: seq<Item>)
    requires Readings(tryParse, items)
    ensures Scan(tryParse, AllWords(items)).rtts == TimesOf(items)
    ensures FirstAddress(tryParse, items, Scan(tryParse, AllWords(items)).address)
  {
    if items != [] {
      var first, rest, t := items[0], items[1..], AllWords(items);
      assert Readings(tryParse, rest) by {
        forall i | 0 <= i < |rest| - 1
          ensures Apart(rest[i], rest[i + 1])
        {
          assert Apart(items[i + 1], items[i + 1 + 1]);
        }
      }
      ItemsRead(tryParse, rest);
      if first.Time? {
        NumberStarts(first.number);
        assert t[2..] == AllWords(rest);
        assert IsRtt(t);
      } else {
        assert |items| > 1 ==> Apart(items[0], items[0 + 1]);
        if first == Star || first.Note? {
          assert t[1..] == AllWords(rest);
        } else {
          OneWord(tryParse, items, first.word);
        }
      }
      FirstOfMore(tryParse, items, Scan(tryParse, AllWords(rest)).address);
    }
  }

  lemma FirstOfMore<A>(tryParse: string -> Option<A>, items: seq<Item>, address: Option<A>)
    requires Readings(tryParse, items) && items != [] && FirstAddress(tryParse, items[1..], address)
    ensures FirstAddress(tryParse, items, if items[0].Address? then tryParse(items[0].word) else address)
  {
    var rest := items[1..];
    if items[0].Address? {
      assert IsFirst(items, 0);
    } else if address.Some? {
      var i :| 0 <= i < |rest| && IsFirst(rest, i) && tryParse(rest[i].word) == address;
      assert IsFirst(items, i + 1);
    } else {
      assert forall i :: 1 <= i < |items| ==> items[i] == rest[i - 1];
    }
  }

  /** And every list of words has such a reading. */
  lemma {:induction false} EveryLineReads<A>(tryParse: string -> Option<A>, words: seq<string>) returns (items: seq<Item>)
    requires forall i :: 0 <= i < |words| ==> words[i] != ""
    ensures Readings(tryParse, items) && AllWords(items) == words
  {
    if words == [] {
      return [];
    }
    var w := words[0];
    var time := IsRtt(words) && IsBare(w);
    var more := EveryLineReads(tryParse, words[if time then 2 else 1..]);
    var item :=
      if time then Time(w) else if w == "*" then Star else if w[0] == '!' then Note(w)
      else if LooksLikeAddress(w) && tryParse(w).Some? then Address(w) else Other(w);
    items := [item] + more;
    assert items[1..] == more;
    assert AllWords(items) == Words(item) + AllWords(more);
    if more != [] && more[0] == Other("ms") {
      assert AllWords(more)[0] == "ms";
    }
  }

  // ----- the line

  /** A hop number after optional white space, white space, and the rest. */
  predicate IsHopLine(line: string, pad: string, digits: string, gap: string, rest: string) {
    && line == pad + digits + gap + rest
    && All(pad, IsSpace) && All(gap, IsSpace) && gap != ""
    && Digits(digits) && digits != ""
    && (rest == "" || !IsSpace(rest[0]))
  }

  lemma {:induction false} TrimStartOf(pad: string, rest: string)
    requires All(pad, IsSpace) && (rest == "" || !IsSpace(rest[0]))
    ensures TrimStart(pad + rest, IsSpace) == rest
  {
    if pad == "" {
      assert pad + rest == rest;
    } else {
      TrimStartOf(pad[1..], rest);
      assert (pad + rest)[1..] == pad[1..] + rest;
    }
  }

  /** Which lines the pattern of a hop matches, and what it finds. */
  lemma HopLines(line: string, n: Numbered)
    ensures HopPattern(line) == Some(n) <==>
      exists pad, digits, gap :: IsHopLine(line, pad, digits, gap, n.rest) && n.number == DecValue(digits)
  {
    if HopPattern(line) == Some(n) {
      var pad, digits, gap := MatchMeans(line, n);
    }
    if pad, digits, gap :| IsHopLine(line, pad, digits, gap, n.rest) && n.number == DecValue(digits) {
      HopLineMatches(line, pad, digits, gap, n.rest);
    }
  }

  lemma MatchMeans(line: string, n: Numbered) returns (pad: string, digits: string, gap: string)
    requires HopPattern(line) == Some(n)
    ensures IsHopLine(line, pad, digits, gap, n.rest) && n.number == DecValue(digits)
  {
    var s := TrimStart(line, IsSpace);
    var k := DigitCount(s);
    pad := TrimStartMeans(line, IsSpace);
    digits := s[..k];
    gap := GapMeans(s[k..]);
    Halves(s, k);
    FourParts(pad, digits, gap, n.rest);
  }

  lemma GapMeans(t: string) returns (gap: string)
    requires t != "" && IsSpace(t[0])
    ensures t == gap + TrimStart(t, IsSpace) && gap != "" && All(gap, IsSpace)
    ensures TrimStart(t, IsSpace) == "" || !IsSpace(TrimStart(t, IsSpace)[0])
  {
    gap := TrimStartMeans(t, IsSpace);
  }

  lemma Halves(s: string, k: nat)
    requires k <= |s|
    ensures s == s[..k] + s[k..]
  {
  }

  lemma FourParts(a: string, b: string, c: string, d: string)
    ensures a + (b + (c + d)) == a + b + c + d
  {
  }

  lemma HopLineMatches(line: string, pad: string, digits: string, gap: string, rest: string)
    requires IsHopLine(line, pad, digits, gap, rest)
    ensures HopPattern(line) == Some(Numbered(DecValue(digits), rest))
  {
    var s := digits + (gap + rest);
    assert line == pad + s;
    TrimStartOf(pad, s);
    assert IsSpace((gap + rest)[0]) && !IsDigit((gap + rest)[0]);
    DigitCountOf(digits, gap + rest);
    assert s[..|digits|] == digits && s[|digits|..] == gap + rest;
    TrimStartOf(gap, rest);
  }

  /** Words with blanks between them are the tokens, however many blanks there are. */
  lemma {:induction false} WordsBetweenBlanks(words: seq<string>, blanks: string)
    requires forall i :: 0 <= i < |words| ==> words[i] != "" && Lacks(words[i], ' ')
    requires blanks != "" && forall i :: 0 <= i < |blanks| ==> blanks[i] == ' '
    ensures Tokens(Join(words, blanks)) == words
  {
    if words == [] {
      SplitWhole("", ' ');
      assert NonEmpty([""]) == [];
    } else {
      OneToken(words[0]);
      if |words| > 1 {
        WordsBetweenBlanks(words[1..], blanks);
        BlanksBetween(words[0], blanks, Join(words[1..], blanks));
      }
    }
  }

  lemma {:induction false} BlanksBetween(a: string, blanks: string, b: string)
    requires blanks != "" && forall i :: 0 <= i < |blanks| ==> blanks[i] == ' '
    ensures Tokens(a + blanks + b) == Tokens(a) + Tokens(b)
    decreases |blanks|
  {
    if |blanks| == 1 {
      assert blanks == " ";
      TokensGlue(a, b);
    } else {
      BlanksBetween("", blanks[1..], b);
      assert a + blanks + b == a + " " + ("" + blanks[1..] + b);
      TokensGlue(a, "" + blanks[1..] + b);
      SplitWhole("", ' ');
      assert NonEmpty([""]) == [];
    }
  }

  /** A line with a hop number and items is read as that number with the first address and all times, unless it
      has neither an address nor a time; carriage returns at its end do not matter. */
  lemma LineSays<A>(
    tryParse: string -> Option<A>, line: string, pad: string, digits: string, gap: string, rest: string, ending: string,
    items: seq<Item>) returns (address: Option<A>)
    requires IsHopLine(line, pad, digits, gap, rest) && rest != "" && rest[|rest| - 1] != '\r'
    requires Readings(tryParse, items) && Tokens(rest) == AllWords(items) && All(ending, IsReturn)
    ensures FirstAddress(tryParse, items, address)
    ensures ParseLine(tryParse, line + ending) ==
      if TimesOf(items) == [] && address.None? then [] else [RawHop(DecValue(digits), address, TimesOf(items))]
    ensures Overflows(line + ending) <==> DecValue(digits) >= 0x8000_0000
  {
    HopLineMatches(line, pad, digits, gap, rest);
    ItemsRead(tryParse, items);
    address := Scan(tryParse, AllWords(items)).address;
    assert line[|line| - 1] == rest[|rest| - 1];
    TrimReturns(line, ending);
  }

  lemma {:induction false} TrimReturns(line: string, ending: string)
    requires line != "" && line[|line| - 1] != '\r' && All(ending, IsReturn)
    ensures TrimEnd(line + ending, IsReturn) == line
  {
    if ending == "" {
      assert line + ending == line;
    } else {
      TrimReturns(line, ending[..|ending| - 1]);
      assert (line + ending)[..|line + ending| - 1] == line + ending[..|ending| - 1];
    }
  }

  /** A line that does not begin with a hop number says nothing. */
  lemma OtherLines<A>(tryParse: string -> Option<A>, line: string)
    requires forall pad, digits, gap, rest :: !IsHopLine(TrimEnd(line, IsReturn), pad, digits, gap, rest)
    ensures ParseLine(tryParse, line) == []
  {
    var pattern := HopPattern(TrimEnd(line, IsReturn));
    if pattern.Some? {
      HopLines(TrimEnd(line, IsReturn), pattern.value);
    }
  }
}
