/** Strings as sequences of characters: splitting and joining, and the character classes the
    parsers test for. White space and letter case are the ASCII ones. */
module Text {
  import opened Options

  predicate IsDigit(c: char) { '0' <= c <= '9' }

  predicate IsHex(c: char) { IsDigit(c) || 'a' <= c <= 'f' || 'A' <= c <= 'F' }

  predicate IsLowerAlnum(c: char) { IsDigit(c) || 'a' <= c <= 'z' }

  predicate IsAlnum(c: char) { IsLowerAlnum(c) || 'A' <= c <= 'Z' }

  predicate IsSpace(c: char) { c == ' ' || '\t' <= c <= '\r' }

  function LowerChar(c: char): char {
    if 'A' <= c <= 'Z' then c - 'A' + 'a' else c
  }

  function Lower(s: string): (r: string)
    ensures |r| == |s| && forall i :: 0 <= i < |s| ==> r[i] == LowerChar(s[i])
  {
    seq(|s|, i requires 0 <= i < |s| => LowerChar(s[i]))
  }

  predicate All(s: string, p: char -> bool) { forall i :: 0 <= i < |s| ==> p(s[i]) }

  predicate Lacks(s: string, c: char) { forall i :: 0 <= i < |s| ==> s[i] != c }

  /** Capital letters become small ones, and nothing else changes. */
  lemma LowerLetters(i: nat, c: char)
    ensures i < 26 ==> LowerChar("ABCDEFGHIJKLMNOPQRSTUVWXYZ"[i]) == "abcdefghijklmnopqrstuvwxyz"[i]
    ensures !('A' <= c <= 'Z') ==> LowerChar(c) == c
    ensures !('A' <= LowerChar(c) <= 'Z')
  {
  }

  lemma LowerParts(a: string, b: string)
    ensures Lower(a + b) == Lower(a) + Lower(b)
  {
  }

  lemma LowerTwice(s: string)
    ensures Lower(Lower(s)) == Lower(s)
  {
  }

  function LowerAll(parts: seq<string>): (r: seq<string>)
    ensures |r| == |parts| && forall i :: 0 <= i < |r| ==> r[i] == Lower(parts[i])
  {
    seq(|parts|, i requires 0 <= i < |parts| => Lower(parts[i]))
  }

  // ----- split and join

  /** The pieces between the occurrences of `c`; always at least one piece. */
  function Split(s: string, c: char): (parts: seq<string>)
    ensures |parts| > 0
  {
    if s == [] then [""]
    else
      var rest := Split(s[1..], c);
      if s[0] == c then [""] + rest else [[s[0]] + rest[0]] + rest[1..]
  }

  function Join(parts: seq<string>, sep: string): string {
    if |parts| == 0 then ""
    else if |parts| == 1 then parts[0]
    else parts[0] + sep + Join(parts[1..], sep)
  }

  lemma {:induction false} SplitWhole(s: string, c: char)
    requires Lacks(s, c)
    ensures Split(s, c) == [s]
  {
    if s != [] {
      SplitWhole(s[1..], c);
      assert [s[0]] + s[1..] == s;
    }
  }

  /** One more character in front of a list of pieces. */
  function Prepend(x: char, c: char, pieces: seq<string>): seq<string>
    requires |pieces| > 0
  {
    if x == c then [""] + pieces else [[x] + pieces[0]] + pieces[1..]
  }

  lemma SplitCons(x: char, rest: string, c: char)
    ensures Split([x] + rest, c) == Prepend(x, c, Split(rest, c))
  {
    assert ([x] + rest)[1..] == rest;
  }

  lemma PrependGlue(x: char, c: char, a: seq<string>, b: seq<string>)
    requires |a| > 0
    ensures Prepend(x, c, a + b) == Prepend(x, c, a) + b
  {
    assert (a + b)[1..] == a[1..] + b;
  }

  /** A separator between two strings separates their pieces. */
  lemma {:induction false} SplitGlue(a: string, c: char, b: string)
    ensures Split(a + [c] + b, c) == Split(a, c) + Split(b, c)
  {
    if a == [] {
      assert a + [c] + b == [c] + b;
      SplitCons(c, b, c);
    } else {
      SplitGlue(a[1..], c, b);
      assert a + [c] + b == [a[0]] + (a[1..] + [c] + b) && a == [a[0]] + a[1..];
      SplitCons(a[0], a[1..] + [c] + b, c);
      SplitCons(a[0], a[1..], c);
      PrependGlue(a[0], c, Split(a[1..], c), Split(b, c));
    }
  }

  lemma {:induction false} JoinSplit(s: string, c: char)
    ensures Join(Split(s, c), [c]) == s
  {
    if s != [] {
      JoinSplit(s[1..], c);
      var rest := Split(s[1..], c);
      if s[0] == c {
        assert ([""] + rest)[1..] == rest;
      } else if |rest| > 1 {
        assert ([[s[0]] + rest[0]] + rest[1..])[1..] == rest[1..];
      }
    }
  }

  lemma {:induction false} SplitJoin(parts: seq<string>, c: char)
    requires |parts| > 0 && forall i :: 0 <= i < |parts| ==> Lacks(parts[i], c)
    ensures Split(Join(parts, [c]), c) == parts
  {
    SplitWhole(parts[0], c);
    if |parts| > 1 {
      SplitJoin(parts[1..], c);
      SplitGlue(parts[0], c, Join(parts[1..], [c]));
    }
  }

  lemma {:induction false} PiecesLack(s: string, c: char)
    ensures forall i :: 0 <= i < |Split(s, c)| ==> Lacks(Split(s, c)[i], c)
  {
    if s != [] {
      PiecesLack(s[1..], c);
    }
  }

  /** Every character of every piece comes from the string. */
  lemma {:induction false} PiecesAll(s: string, c: char, p: char -> bool)
    requires All(s, p)
    ensures forall i :: 0 <= i < |Split(s, c)| ==> All(Split(s, c)[i], p)
  {
    if s != [] {
      PiecesAll(s[1..], c, p);
    }
  }

  lemma {:induction false} JoinAll(parts: seq<string>, sep: string, p: char -> bool)
    requires All(sep, p) && forall i :: 0 <= i < |parts| ==> All(parts[i], p)
    ensures All(Join(parts, sep), p)
  {
    if |parts| > 1 {
      JoinAll(parts[1..], sep, p);
    }
  }

  lemma {:induction false} JoinGlue(a: seq<string>, b: seq<string>, sep: string)
    requires |a| > 0 && |b| > 0
    ensures Join(a + b, sep) == Join(a, sep) + sep + Join(b, sep)
  {
    if |a| == 1 {
      assert (a + b)[1..] == b;
    } else {
      JoinGlue(a[1..], b, sep);
      assert (a + b)[1..] == a[1..] + b;
      assert Join(a + b, sep) == a[0] + sep + (Join(a[1..], sep) + sep + Join(b, sep));
    }
  }

  lemma {:induction false} LastOfJoin(parts: seq<string>, sep: string)
    requires parts != [] && parts[|parts| - 1] != ""
    ensures var s, t := Join(parts, sep), parts[|parts| - 1]; s != "" && s[|s| - 1] == t[|t| - 1]
  {
    if |parts| > 1 {
      LastOfJoin(parts[1..], sep);
    }
  }

  predicate EndsWith(s: string, t: string) { |t| <= |s| && s[|s| - |t|..] == t }

  predicate ListEndsWith(s: seq<string>, t: seq<string>) { |t| <= |s| && s[|s| - |t|..] == t }

  predicate IsLetter(c: char) { IsAlnum(c) && !IsDigit(c) }

  /** Letter case does not matter where a text is split, as long as it is not split at letters. */
  lemma {:induction false} SplitLower(s: string, c: char)
    requires !IsLetter(c)
    ensures Split(Lower(s), c) == LowerAll(Split(s, c))
  {
    if s != [] {
      SplitLower(s[1..], c);
      var rest := Split(s[1..], c);
      assert s == [s[0]] + s[1..] && Lower(s) == [LowerChar(s[0])] + Lower(s[1..]);
      SplitCons(s[0], s[1..], c);
      SplitCons(LowerChar(s[0]), Lower(s[1..]), c);
      PrependLower(s[0], c, rest);
    } else {
      assert Lower(s) == "";
      assert LowerAll([""]) == [""];
    }
  }

  lemma PrependLower(x: char, c: char, pieces: seq<string>)
    requires !IsLetter(c) && |pieces| > 0
    ensures Prepend(LowerChar(x), c, LowerAll(pieces)) == LowerAll(Prepend(x, c, pieces))
  {
    if x != c {
      assert Lower([x] + pieces[0]) == [LowerChar(x)] + Lower(pieces[0]);
    }
  }

  // ----- trimming

  function TrimEnd(s: string, p: char -> bool): string {
    if s != [] && p(s[|s| - 1]) then TrimEnd(s[..|s| - 1], p) else s
  }

  function TrimStart(s: string, p: char -> bool): string {
    if s != [] && p(s[0]) then TrimStart(s[1..], p) else s
  }

  function Trim(s: string): string { TrimEnd(TrimStart(s, IsSpace), IsSpace) }

  lemma AllParts(a: string, b: string, p: char -> bool)
    ensures All(a + b, p) <==> All(a, p) && All(b, p)
  {
    assert forall i :: 0 <= i < |a| ==> (a + b)[i] == a[i];
    assert forall i :: 0 <= i < |b| ==> (a + b)[|a| + i] == b[i];
  }

  lemma Regrouped(a: string, b: string, c: string)
    ensures a + b + c == a + (b + c)
  {
  }

  /** What is trimmed is everything the predicate holds of, up to the first character it does not hold of. */
  lemma {:induction false} TrimEndMeans(s: string, p: char -> bool) returns (cut: string)
    ensures s == TrimEnd(s, p) + cut && All(cut, p)
    ensures var t := TrimEnd(s, p); t == "" || !p(t[|t| - 1])
  {
    if s != [] && p(s[|s| - 1]) {
      var more := TrimEndMeans(s[..|s| - 1], p);
      cut := more + [s[|s| - 1]];
      AllParts(more, [s[|s| - 1]], p);
      Regrouped(TrimEnd(s[..|s| - 1], p), more, [s[|s| - 1]]);
      assert s == s[..|s| - 1] + [s[|s| - 1]];
    } else {
      cut := "";
    }
  }

  lemma {:induction false} TrimStartMeans(s: string, p: char -> bool) returns (cut: string)
    ensures s == cut + TrimStart(s, p) && All(cut, p)
    ensures var t := TrimStart(s, p); t == "" || !p(t[0])
  {
    if s != [] && p(s[0]) {
      var more := TrimStartMeans(s[1..], p);
      cut := [s[0]] + more;
      AllParts([s[0]], more, p);
      Regrouped([s[0]], more, TrimStart(s[1..], p));
      assert s == [s[0]] + s[1..];
    } else {
      cut := "";
    }
  }

  /** Trimming takes away the white space at both ends, and nothing else. */
  lemma TrimMeans(s: string) returns (before: string, after: string)
    ensures s == before + Trim(s) + after && All(before, IsSpace) && All(after, IsSpace)
    ensures var t := Trim(s); t == "" || (!IsSpace(t[0]) && !IsSpace(t[|t| - 1]))
  {
    before := TrimStartMeans(s, IsSpace);
    after := TrimEndMeans(TrimStart(s, IsSpace), IsSpace);
  }

  /** A predicate that does not look at letter case. */
  ghost predicate CaseBlind(p: char -> bool) {
    forall c :: p(LowerChar(c)) == p(c)
  }

  lemma {:induction false} TrimEndLower(s: string, p: char -> bool)
    requires CaseBlind(p)
    ensures TrimEnd(Lower(s), p) == Lower(TrimEnd(s, p))
  {
    if s != [] && p(s[|s| - 1]) {
      TrimEndLower(s[..|s| - 1], p);
      assert Lower(s)[..|s| - 1] == Lower(s[..|s| - 1]);
    }
  }

  lemma {:induction false} TrimStartLower(s: string, p: char -> bool)
    requires CaseBlind(p)
    ensures TrimStart(Lower(s), p) == Lower(TrimStart(s, p))
  {
    if s != [] && p(s[0]) {
      TrimStartLower(s[1..], p);
      assert Lower(s)[1..] == Lower(s[1..]);
    }
  }

  lemma TrimLower(s: string)
    ensures Trim(Lower(s)) == Lower(Trim(s))
  {
    TrimStartLower(s, IsSpace);
    TrimEndLower(TrimStart(s, IsSpace), IsSpace);
  }
}
