/** The capped copy of a process's output (src/Diagnostics/Execution/ProcessRunner.cs). Text is a
    sequence of UTF-16 code units; the reader hands it over in chunks of its own choosing. */
module ProcessOutput {

  type Unit = int

  /** How many characters one read gives at most. */
  const BUFFER_SIZE := 4096

  /** What one read gives: some code units, none at the end of the stream, or an exception because the
      process is gone. */
  datatype Read = Chars(units: seq<Unit>) | Fault

  predicate IsHigh(u: Unit) { 0xd800 <= u < 0xdc00 }

  predicate IsLow(u: Unit) { 0xdc00 <= u < 0xe000 }

  /** `Encoding.UTF8.GetByteCount`: a lone surrogate counts like the replacement character. */
  function ByteCount(s: seq<Unit>): nat {
    if s == [] then 0
    else if s[0] < 0x80 then 1 + ByteCount(s[1..])
    else if s[0] < 0x800 then 2 + ByteCount(s[1..])
    else if |s| > 1 && IsHigh(s[0]) && IsLow(s[1]) then 4 + ByteCount(s[2..])
    else 3 + ByteCount(s[1..])
  }

  predicate Stops(r: Read) { r.Fault? || r.units == [] }

  /** Everything the reader delivers before it ends or fails. */
  function Delivered(input: seq<Read>): seq<Unit> {
    if input == [] || Stops(input[0]) then [] else input[0].units + Delivered(input[1..])
  }

  /** The bytes of the chunks before the end, counted chunk by chunk. */
  function ChunkBytes(input: seq<Read>): nat {
    if input == [] || Stops(input[0]) then 0 else ByteCount(input[0].units) + ChunkBytes(input[1..])
  }

  function Min(a: int, b: int): int { if a < b then a else b }

  function Max(a: int, b: int): int { if a < b then b else a }

  datatype Copy = Copy(text: seq<Unit>, limited: bool)

  /** The rest of the copy when `total` bytes have been counted. */
  function CopyFrom(input: seq<Read>, total: nat, maxBytes: nat): Copy {
    if input == [] || Stops(input[0]) then Copy([], false)
    else
      var chunk := input[0].units;
      var bytes := ByteCount(chunk);
      if total + bytes > maxBytes then Copy(chunk[..Min(|chunk|, Max(0, maxBytes - total))], true)
      else
        var rest := CopyFrom(input[1..], total + bytes, maxBytes);
        Copy(chunk + rest.text, rest.limited)
  }

  /** A copy that goes on from what has been copied already. */
  function Resumed(text: seq<Unit>, rest: Copy): Copy {
    Copy(text + rest.text, rest.limited)
  }

  /** What the loop knows: what has been copied so far, and then the rest, is the copy. */
  ghost predicate CopiedSoFar(text: seq<Unit>, input: seq<Read>, i: nat, total: nat, maxBytes: nat)
    requires i <= |input|
  {
    CopyFrom(input, 0, maxBytes) == Resumed(text, CopyFrom(input[i..], total, maxBytes))
  }

  lemma CopyStarts(input: seq<Read>, maxBytes: nat)
    ensures CopiedSoFar([], input, 0, 0, maxBytes)
  {
    assert input[0..] == input;
    var c := CopyFrom(input, 0, maxBytes);
    assert [] + c.text == c.text;
  }

  lemma CopyStep(text: seq<Unit>, input: seq<Read>, i: nat, total: nat, maxBytes: nat)
    requires i < |input| && !Stops(input[i]) && total + ByteCount(input[i].units) <= maxBytes
    requires CopiedSoFar(text, input, i, total, maxBytes)
    ensures CopiedSoFar(text + input[i].units, input, i + 1, total + ByteCount(input[i].units), maxBytes)
  {
    assert input[i..][0] == input[i] && input[i..][1..] == input[i + 1..];
    var rest := CopyFrom(input[i + 1..], total + ByteCount(input[i].units), maxBytes);
    assert text + (input[i].units + rest.text) == text + input[i].units + rest.text;
  }

  lemma CopyEnds(text: seq<Unit>, input: seq<Read>, i: nat, total: nat, maxBytes: nat)
    requires i <= |input| && (i == |input| || Stops(input[i])) && CopiedSoFar(text, input, i, total, maxBytes)
    ensures CopyFrom(input, 0, maxBytes) == Copy(text, false)
  {
    assert i < |input| ==> input[i..][0] == input[i];
    assert text + [] == text;
  }

  lemma CopyLimited(text: seq<Unit>, input: seq<Read>, i: nat, total: nat, maxBytes: nat)
    requires i < |input| && !Stops(input[i]) && total + ByteCount(input[i].units) > maxBytes
    requires CopiedSoFar(text, input, i, total, maxBytes)
    ensures CopyFrom(input, 0, maxBytes)
         == Copy(text + input[i].units[..Min(|input[i].units|, Max(0, maxBytes - total))], true)
  {
    assert input[i..][0] == input[i];
  }

  /** No read gives more than `size` characters. */
  predicate Buffered(input: seq<Read>, size: nat) {
    forall i :: 0 <= i < |input| && input[i].Chars? ==> |input[i].units| <= size
  }

  /** What the reader does with the buffer. */
  method Fill(buffer: array<Unit>, units: seq<Unit>) returns (read: nat)
    requires |units| <= buffer.Length
    modifies buffer
    ensures read == |units| && buffer[..read] == units
  {
    read := |units|;
    forall i | 0 <= i < |units| {
      buffer[i] := units[i];
    }
  }

  /** The reads fit the buffer: that is the reader's part. */
  method ReadCapped(input: seq<Read>, maxBytes: nat) returns (text: seq<Unit>, limited: bool)
    requires Buffered(input, BUFFER_SIZE)
    ensures Copy(text, limited) == CopyFrom(input, 0, maxBytes)
  {
    var buffer := new Unit[BUFFER_SIZE];
    text, limited := [], false;
    var total, i := 0, 0;
    CopyStarts(input, maxBytes);
    while i < |input|
      invariant 0 <= i <= |input| && 0 <= total && !limited
      invariant CopiedSoFar(text, input, i, total, maxBytes)
      decreases |input| - i
    {
      var r := input[i];
      if r.Fault? {
        break;
      }
      var read := Fill(buffer, r.units);
      if read == 0 {
        break;
      }
      var chunk := buffer[..read];
      var bytes := ByteCount(chunk);
      if total + bytes > maxBytes {
        CopyLimited(text, input, i, total, maxBytes);
        var remaining := Max(0, maxBytes - total);
        text := text + chunk[..Min(read, remaining)];
        limited := true;
        return;
      }
      CopyStep(text, input, i, total, maxBytes);
      total := total + bytes;
      text := text + chunk;
      i := i + 1;
    }
    CopyEnds(text, input, i, total, maxBytes);
  }

  lemma {:induction false} BytesCoverUnits(s: seq<Unit>)
    ensures |s| <= ByteCount(s) <= 3 * |s|
  {
    if s != [] {
      if s[0] >= 0x800 && |s| > 1 && IsHigh(s[0]) && IsLow(s[1]) {
        BytesCoverUnits(s[2..]);
      } else {
        BytesCoverUnits(s[1..]);
      }
    }
  }

  /** The copy is a prefix of what was delivered and has at most `maxBytes` characters. The limit is hit
      exactly when the chunks have more bytes than that; otherwise nothing is lost. */
  lemma {:induction false} CopyIsCappedPrefix(input: seq<Read>, total: nat, maxBytes: nat)
    requires total <= maxBytes
    ensures var c := CopyFrom(input, total, maxBytes);
            && c.text <= Delivered(input)
            && total + |c.text| <= maxBytes
            && (c.limited <==> total + ChunkBytes(input) > maxBytes)
            && (!c.limited ==> c.text == Delivered(input))
  {
    if input != [] && !Stops(input[0]) {
      var chunk := input[0].units;
      var bytes := ByteCount(chunk);
      BytesCoverUnits(chunk);
      if total + bytes <= maxBytes {
        CopyIsCappedPrefix(input[1..], total + bytes, maxBytes);
      }
    }
  }

  // ----- how the text arrives

  /** How many characters a read of one gives, when surrogate pairs are to stay together or not. */
  function Step(s: seq<Unit>, pairs: bool): (n: nat)
    requires s != []
    ensures 1 <= n <= |s| && n <= 2
  {
    if pairs && |s| > 1 && s[0] >= 0x800 && IsHigh(s[0]) && IsLow(s[1]) then 2 else 1
  }

  /** A text read character by character, and then the other reads. */
  function OneByOne(s: seq<Unit>, pairs: bool, rest: seq<Read>): seq<Read> {
    if s == [] then rest else [Chars(s[..Step(s, pairs)])] + OneByOne(s[Step(s, pairs)..], pairs, rest)
  }

  /** Its bytes, counted read by read. */
  function BytesByOne(s: seq<Unit>, pairs: bool): nat {
    if s == [] then 0 else ByteCount(s[..Step(s, pairs)]) + BytesByOne(s[Step(s, pairs)..], pairs)
  }

  lemma CopyFirst(r: Read, rest: seq<Read>, total: nat, maxBytes: nat)
    requires !Stops(r) && total + ByteCount(r.units) <= maxBytes
    ensures CopyFrom([r] + rest, total, maxBytes) == Resumed(r.units, CopyFrom(rest, total + ByteCount(r.units), maxBytes))
  {
    assert ([r] + rest)[1..] == rest;
  }

  /** A read that crosses the limit ends the copy. */
  lemma CopyCut(r: Read, rest: seq<Read>, total: nat, maxBytes: nat)
    requires !Stops(r) && total + ByteCount(r.units) > maxBytes
    ensures CopyFrom([r] + rest, total, maxBytes) == Copy(r.units[..Min(|r.units|, Max(0, maxBytes - total))], true)
  {
    assert ([r] + rest)[1..] == rest;
  }

  lemma DeliveredFirst(r: Read, rest: seq<Read>)
    requires !Stops(r)
    ensures Delivered([r] + rest) == r.units + Delivered(rest)
  {
    assert ([r] + rest)[1..] == rest;
  }

  lemma ResumedTwice(a: seq<Unit>, b: seq<Unit>, rest: Copy)
    ensures Resumed(a, Resumed(b, rest)) == Resumed(a + b, rest)
  {
    Associate(a, b, rest.text);
  }

  lemma Associate(a: seq<Unit>, b: seq<Unit>, c: seq<Unit>)
    ensures a + (b + c) == a + b + c
  {
  }

  /** Such a text is copied whole, as long as it fits, and the copy goes on with the other reads. */
  lemma {:induction false} CopyOneByOne(s: seq<Unit>, pairs: bool, rest: seq<Read>, total: nat, maxBytes: nat)
    requires total + BytesByOne(s, pairs) <= maxBytes
    ensures CopyFrom(OneByOne(s, pairs, rest), total, maxBytes)
         == Resumed(s, CopyFrom(rest, total + BytesByOne(s, pairs), maxBytes))
  {
    if s != [] {
      var first, more := s[..Step(s, pairs)], s[Step(s, pairs)..];
      var next, t := OneByOne(more, pairs, rest), total + ByteCount(first);
      assert OneByOne(s, pairs, rest) == [Chars(first)] + next;
      assert BytesByOne(s, pairs) == ByteCount(first) + BytesByOne(more, pairs);
      CopyOneByOne(more, pairs, rest, t, maxBytes);
      CopyOneMore(first, more, next, total, maxBytes, CopyFrom(rest, t + BytesByOne(more, pairs), maxBytes));
      assert first + more == s;
    }
  }

  lemma CopyOneMore(first: seq<Unit>, s: seq<Unit>, next: seq<Read>, total: nat, maxBytes: nat, rest: Copy)
    requires first != [] && total + ByteCount(first) <= maxBytes
    requires CopyFrom(next, total + ByteCount(first), maxBytes) == Resumed(s, rest)
    ensures CopyFrom([Chars(first)] + next, total, maxBytes) == Resumed(first + s, rest)
  {
    CopyFirst(Chars(first), next, total, maxBytes);
    ResumedTwice(first, s, rest);
  }

  lemma {:induction false} DeliveredOneByOne(s: seq<Unit>, pairs: bool, rest: seq<Read>)
    ensures Delivered(OneByOne(s, pairs, rest)) == s + Delivered(rest)
  {
    if s != [] {
      var n := Step(s, pairs);
      DeliveredOneByOne(s[n..], pairs, rest);
      DeliveredFirst(Chars(s[..n]), OneByOne(s[n..], pairs, rest));
      Associate(s[..n], s[n..], Delivered(rest));
      assert s[..n] + s[n..] == s;
    }
  }

  lemma {:induction false} BufferedOneByOne(s: seq<Unit>, pairs: bool, rest: seq<Read>, size: nat)
    requires 2 <= size && Buffered(rest, size)
    ensures Buffered(OneByOne(s, pairs, rest), size)
  {
    if s != [] {
      BufferedOneByOne(s[Step(s, pairs)..], pairs, rest, size);
    }
  }

  lemma {:induction false} PairsTogether(s: seq<Unit>)
    ensures BytesByOne(s, true) == ByteCount(s)
  {
    if s != [] {
      PairsTogether(s[Step(s, true)..]);
      FirstBytes(s);
    }
  }

  lemma FirstBytes(s: seq<Unit>)
    requires s != []
    ensures ByteCount(s) == ByteCount(s[..Step(s, true)]) + ByteCount(s[Step(s, true)..])
  {
    assert s[..1][1..] == [];
    if |s| > 1 {
      assert s[..2][2..] == [];
    }
  }

  // ----- text of single bytes

  predicate SingleByte(s: seq<Unit>) { forall i :: 0 <= i < |s| ==> s[i] < 0x80 }

  /** Every character but perhaps the last is a single byte. */
  predicate SingleByteButLast(s: seq<Unit>) { forall i :: 0 <= i < |s| - 1 ==> s[i] < 0x80 }

  lemma {:induction false} SingleByteCount(s: seq<Unit>)
    requires SingleByte(s)
    ensures ByteCount(s) == |s|
  {
    if s != [] {
      SingleByteCount(s[1..]);
    }
  }

  lemma {:induction false} ButLastCount(a: seq<Unit>, b: seq<Unit>)
    requires SingleByteButLast(a + b) && b != []
    ensures SingleByte(a) && SingleByteButLast(b) && ByteCount(a + b) == |a| + ByteCount(b)
  {
    assert forall i :: 0 <= i < |a| ==> a[i] == (a + b)[i];
    assert forall i :: 0 <= i < |b| ==> b[i] == (a + b)[|a| + i];
    if a == [] {
      assert a + b == b;
    } else {
      assert (a + b)[1..] == a[1..] + b;
      assert forall i :: 0 <= i < |a[1..] + b| ==> (a[1..] + b)[i] == (a + b)[i + 1];
      ButLastCount(a[1..], b);
    }
  }

  lemma TakeGlue(a: seq<Unit>, b: seq<Unit>, n: nat)
    requires |a| <= n
    ensures (a + b)[..Min(|a + b|, n)] == a + b[..Min(|b|, n - |a|)]
  {
  }

  /** A copy cut at exactly the characters that are left, with the limit reported exactly when there are
      more bytes. */
  predicate IsCut(d: seq<Unit>, c: Copy, total: nat, maxBytes: nat)
    requires total <= maxBytes
  {
    c.text == d[..Min(|d|, maxBytes - total)] && (c.limited <==> total + ByteCount(d) > maxBytes)
  }

  predicate CutByCount(input: seq<Read>, total: nat, maxBytes: nat)
    requires total <= maxBytes
  {
    IsCut(Delivered(input), CopyFrom(input, total, maxBytes), total, maxBytes)
  }

  lemma CutAfter(first: seq<Unit>, d: seq<Unit>, c: Copy, total: nat, maxBytes: nat)
    requires total + |first| <= maxBytes && ByteCount(first + d) == |first| + ByteCount(d)
    requires IsCut(d, c, total + |first|, maxBytes)
    ensures IsCut(first + d, Resumed(first, c), total, maxBytes)
  {
    TakeGlue(first, d, maxBytes - total);
  }

  /** Text of single bytes, but for its last character, is cut like that however it arrives. */
  lemma {:induction false} ButLastCopy(input: seq<Read>, total: nat, maxBytes: nat)
    requires total <= maxBytes && SingleByteButLast(Delivered(input))
    ensures CutByCount(input, total, maxBytes)
  {
    if input != [] && !Stops(input[0]) {
      var r, more := input[0], input[1..];
      assert input == [r] + more;
      if Delivered(more) == [] {
        LastCopy(r, more, total, maxBytes);
      } else {
        DeliveredFirst(r, more);
        ButLastCount(r.units, Delivered(more));
        SingleByteCount(r.units);
        if total + |r.units| <= maxBytes {
          ButLastCopy(more, total + |r.units|, maxBytes);
          CopyFirst(r, more, total, maxBytes);
          CutAfter(r.units, Delivered(more), CopyFrom(more, total + |r.units|, maxBytes), total, maxBytes);
        } else {
          EarlierCut(r, more, total, maxBytes);
        }
      }
    }
  }

  lemma EarlierCut(r: Read, more: seq<Read>, total: nat, maxBytes: nat)
    requires !Stops(r) && ByteCount(r.units) == |r.units| && total <= maxBytes < total + |r.units|
    requires ByteCount(r.units + Delivered(more)) == |r.units| + ByteCount(Delivered(more))
    ensures CutByCount([r] + more, total, maxBytes)
  {
    DeliveredFirst(r, more);
    CopyCut(r, more, total, maxBytes);
    TakeOfFirst(r.units, Delivered(more), maxBytes - total);
  }

  lemma TakeOfFirst(a: seq<Unit>, b: seq<Unit>, n: nat)
    requires n <= |a|
    ensures (a + b)[..Min(|a + b|, n)] == a[..Min(|a|, n)]
  {
  }

  lemma NothingLeft(input: seq<Read>, total: nat, maxBytes: nat)
    requires Delivered(input) == []
    ensures CopyFrom(input, total, maxBytes) == Copy([], false)
  {
  }

  lemma LastCopy(r: Read, more: seq<Read>, total: nat, maxBytes: nat)
    requires total <= maxBytes && !Stops(r) && Delivered(more) == []
    ensures CutByCount([r] + more, total, maxBytes)
  {
    DeliveredFirst(r, more);
    assert r.units + [] == r.units;
    BytesCoverUnits(r.units);
    if total + ByteCount(r.units) <= maxBytes {
      CopyFirst(r, more, total, maxBytes);
      NothingLeft(more, total + ByteCount(r.units), maxBytes);
    } else {
      CopyCut(r, more, total, maxBytes);
    }
  }

  /** Single-byte text is cut at exactly `maxBytes` characters however it arrives. */
  lemma SingleByteCopy(input: seq<Read>, maxBytes: nat)
    requires SingleByte(Delivered(input))
    ensures CopyFrom(input, 0, maxBytes).text == Delivered(input)[..Min(|Delivered(input)|, maxBytes)]
    ensures CopyFrom(input, 0, maxBytes).limited <==> |Delivered(input)| > maxBytes
  {
    ButLastCopy(input, 0, maxBytes);
    SingleByteCount(Delivered(input));
  }

  // ----- does it matter how the text arrives

  /** At a limit, all ways of reading a text give the same copy. */
  ghost predicate AlikeAt(d: seq<Unit>, maxBytes: nat, size: nat) {
    forall a, b ::
      Buffered(a, size) && Buffered(b, size) && Delivered(a) == d && Delivered(b) == d
      ==> CopyFrom(a, 0, maxBytes) == CopyFrom(b, 0, maxBytes)
  }

  ghost predicate AlwaysAlike(d: seq<Unit>, size: nat) {
    forall maxBytes: nat :: AlikeAt(d, maxBytes, size)
  }

  /** How a text arrives matters at no limit exactly if every character but the last is a single byte, with
      any buffer of two characters or more. */
  lemma ChunkingIsIrrelevant(d: seq<Unit>, size: nat)
    requires 2 <= size
    ensures AlwaysAlike(d, size) <==> SingleByteButLast(d)
  {
    if SingleByteButLast(d) {
      forall maxBytes: nat
        ensures AlikeAt(d, maxBytes, size)
      {
        AlikeButLast(d, maxBytes, size);
      }
    } else {
      var i :| 0 <= i < |d| - 1 && d[i] >= 0x80;
      var a, b, maxBytes := ChunkingMatters(d[..i], d[i], d[i + 1], d[i + 2..]);
      assert d == d[..i] + [d[i], d[i + 1]] + d[i + 2..];
      assert Buffered(a, size) && Buffered(b, size);
      assert !AlikeAt(d, maxBytes, size);
    }
  }

  lemma AlikeButLast(d: seq<Unit>, maxBytes: nat, size: nat)
    requires SingleByteButLast(d)
    ensures AlikeAt(d, maxBytes, size)
  {
    forall a, b | Buffered(a, size) && Buffered(b, size) && Delivered(a) == d && Delivered(b) == d
      ensures CopyFrom(a, 0, maxBytes) == CopyFrom(b, 0, maxBytes)
    {
      ButLastCopy(a, 0, maxBytes);
      ButLastCopy(b, 0, maxBytes);
    }
  }

  /** Two ways to read the same text in which two of its characters arrive apart or together, and a limit
      between them. */
  lemma ChunkingMatters(s: seq<Unit>, x: Unit, y: Unit, t: seq<Unit>)
      returns (a: seq<Read>, b: seq<Read>, maxBytes: nat)
    requires x >= 0x80
    ensures Buffered(a, 2) && Buffered(b, 2)
    ensures Delivered(a) == s + [x, y] + t && Delivered(b) == s + [x, y] + t
    ensures maxBytes == BytesByOne(s, false) + ByteCount([x])
    ensures CopyFrom(a, 0, maxBytes) == Copy(s + [x], true) && CopyFrom(b, 0, maxBytes) == Copy(s + [x, y], true)
  {
    maxBytes := BytesByOne(s, false) + ByteCount([x]);
    var after := TextAlone(t);
    Apart(x, y, after, BytesByOne(s, false));
    a := AfterText(s, false, [x, y], t, [Chars([x])] + ([Chars([y])] + after), maxBytes);
    Together(x, y, after, BytesByOne(s, false));
    b := AfterText(s, false, [x, y], t, [Chars([x, y])] + after, maxBytes);
  }

  lemma TextAlone(t: seq<Unit>) returns (input: seq<Read>)
    ensures Buffered(input, 2) && Delivered(input) == t
  {
    input := OneByOne(t, false, []);
    DeliveredOneByOne(t, false, []);
    BufferedOneByOne(t, false, [], 2);
    assert t + [] == t;
  }

  lemma {:induction false} SinglesByOne(s: seq<Unit>)
    requires SingleByte(s)
    ensures BytesByOne(s, false) == |s|
  {
    if s != [] {
      SinglesByOne(s[1..]);
      SingleByteCount(s[..1]);
    }
  }

  /** At every limit there is a text whose copy depends on how it arrives. */
  lemma ChunkingMattersAt(maxBytes: nat) returns (a: seq<Read>, b: seq<Read>)
    requires 2 <= maxBytes
    ensures Buffered(a, 2) && Buffered(b, 2) && Delivered(a) == Delivered(b)
    ensures CopyFrom(a, 0, maxBytes) != CopyFrom(b, 0, maxBytes)
  {
    var s := Repeat(0x61, maxBytes - 2);
    SinglesByOne(s);
    assert [0xe9][1..] == [] && ByteCount([0xe9]) == 2;
    var limit;
    a, b, limit := ChunkingMatters(s, 0xe9, 0x61, []);
    assert |s + [0xe9]| != |s + [0xe9, 0x61]|;
  }

  lemma AfterText(s: seq<Unit>, pairs: bool, m: seq<Unit>, t: seq<Unit>, rest: seq<Read>, maxBytes: nat)
      returns (input: seq<Read>)
    requires BytesByOne(s, pairs) <= maxBytes && Buffered(rest, 2) && Delivered(rest) == m + t
    ensures Buffered(input, 2) && Delivered(input) == s + m + t
    ensures CopyFrom(input, 0, maxBytes) == Resumed(s, CopyFrom(rest, BytesByOne(s, pairs), maxBytes))
  {
    input := OneByOne(s, pairs, rest);
    CopyOneByOne(s, pairs, rest, 0, maxBytes);
    DeliveredOneByOne(s, pairs, rest);
    BufferedOneByOne(s, pairs, rest, 2);
    Associate(s, m, t);
  }

  lemma Apart(x: Unit, y: Unit, after: seq<Read>, total: nat)
    ensures var rest := [Chars([x])] + ([Chars([y])] + after);
            && CopyFrom(rest, total, total + ByteCount([x])) == Copy([x], true)
            && Delivered(rest) == [x, y] + Delivered(after)
  {
    var next := [Chars([y])] + after;
    CopyFirst(Chars([x]), next, total, total + ByteCount([x]));
    CopyCut(Chars([y]), after, total + ByteCount([x]), total + ByteCount([x]));
    DeliveredFirst(Chars([x]), next);
    DeliveredFirst(Chars([y]), after);
    assert [x] + [] == [x];
    assert [x] + ([y] + Delivered(after)) == [x, y] + Delivered(after);
  }

  lemma Together(x: Unit, y: Unit, after: seq<Read>, total: nat)
    requires x >= 0x80
    ensures var rest := [Chars([x, y])] + after;
            && CopyFrom(rest, total, total + ByteCount([x])) == Copy([x, y], true)
            && Delivered(rest) == [x, y] + Delivered(after)
  {
    assert [x][1..] == [] && [x, y][1..] == [y] && [x, y][2..] == [] && [x, y][..2] == [x, y];
    assert ByteCount([x, y]) > ByteCount([x]) >= 2;
    CopyCut(Chars([x, y]), after, total, total + ByteCount([x]));
    DeliveredFirst(Chars([x, y]), after);
  }

  // ----- how many bytes the copy has

  lemma {:induction false} BytesOfJoined(a: seq<Unit>, b: seq<Unit>)
    ensures ByteCount(a + b) <= ByteCount(a) + ByteCount(b)
  {
    if a == [] {
      assert a + b == b;
    } else if |a| == 1 && b != [] && IsHigh(a[0]) && IsLow(b[0]) {
      assert (a + b)[2..] == b[1..];
      assert ByteCount(b) == 3 + ByteCount(b[1..]);
      assert ByteCount(a) == 3 + ByteCount(a[1..]);
    } else if |a| > 1 && IsHigh(a[0]) && IsLow(a[1]) {
      assert (a + b)[2..] == a[2..] + b;
      BytesOfJoined(a[2..], b);
    } else {
      assert (a + b)[1..] == a[1..] + b;
      BytesOfJoined(a[1..], b);
    }
  }

  lemma {:induction false} OneMoreByte(s: seq<Unit>, c: Unit)
    ensures ByteCount(s) < ByteCount(s + [c])
  {
    if s == [] {
      assert s + [c] == [c];
    } else if |s| == 1 {
      assert (s + [c])[1..] == [c] && (s + [c])[2..] == [] && s[1..] == [];
    } else if s[0] >= 0x800 && IsHigh(s[0]) && IsLow(s[1]) {
      assert (s + [c])[2..] == s[2..] + [c];
      OneMoreByte(s[2..], c);
    } else {
      assert (s + [c])[1..] == s[1..] + [c];
      OneMoreByte(s[1..], c);
    }
  }

  /** Every further character adds a byte or more. */
  lemma {:induction false} BytesSpread(d: seq<Unit>, i: nat, j: nat)
    requires i <= j <= |d|
    ensures ByteCount(d[..i]) + (j - i) <= ByteCount(d[..j])
  {
    if i < j {
      BytesSpread(d, i, j - 1);
      OneMoreByte(d[..j - 1], d[j - 1]);
      assert d[..j] == d[..j - 1] + [d[j - 1]];
    }
  }

  /** The cut is by characters, so the copy can have more bytes than the limit: up to two more for each
      character of the last read. Within the limit it never has more bytes than were counted. */
  lemma {:induction false} CopyBytes(input: seq<Read>, total: nat, maxBytes: nat, size: nat)
    requires total <= maxBytes && Buffered(input, size)
    ensures var c := CopyFrom(input, total, maxBytes);
            total + ByteCount(c.text) <= maxBytes + if c.limited then 2 * Min(size, maxBytes) else 0
  {
    if input != [] && !Stops(input[0]) {
      var chunk := input[0].units;
      var bytes := ByteCount(chunk);
      if total + bytes > maxBytes {
        var cut := chunk[..Min(|chunk|, Max(0, maxBytes - total))];
        assert CopyFrom(input, total, maxBytes) == Copy(cut, true);
        BytesCoverUnits(cut);
      } else {
        var rest := CopyFrom(input[1..], total + bytes, maxBytes);
        assert CopyFrom(input, total, maxBytes) == Copy(chunk + rest.text, rest.limited);
        CopyBytes(input[1..], total + bytes, maxBytes, size);
        BytesOfJoined(chunk, rest.text);
      }
    }
  }

  function Repeat(u: Unit, n: nat): (s: seq<Unit>)
    ensures |s| == n && forall i :: 0 <= i < n ==> s[i] == u
  {
    seq(n, i => u)
  }

  lemma {:induction false} ThreeBytesEach(n: nat)
    ensures ByteCount(Repeat(0x20ac, n)) == 3 * n
  {
    if n > 0 {
      ThreeBytesEach(n - 1);
      assert Repeat(0x20ac, n)[1..] == Repeat(0x20ac, n - 1);
    }
  }

  /** That bound is reached, for every limit and every buffer: single bytes up to the last read, then a
      read of three-byte characters. */
  lemma BytesExceedLimit(maxBytes: nat, size: nat) returns (input: seq<Read>)
    requires 1 <= maxBytes && 2 <= size
    ensures Buffered(input, size)
    ensures var c := CopyFrom(input, 0, maxBytes); c.limited && ByteCount(c.text) == maxBytes + 2 * Min(size, maxBytes)
  {
    var n := Min(size, maxBytes);
    var ascii, wide := Repeat(0x61, maxBytes - n), Repeat(0x20ac, n);
    SingleByteCount(ascii);
    PairsTogether(ascii);
    ThreeBytesEach(n);
    input := OneByOne(ascii, true, [Chars(wide)]);
    BufferedOneByOne(ascii, true, [Chars(wide)], size);
    CopyOneByOne(ascii, true, [Chars(wide)], 0, maxBytes);
    CopyCut(Chars(wide), [], maxBytes - n, maxBytes);
    assert [Chars(wide)] + [] == [Chars(wide)];
    assert wide[..n] == wide;
    AsciiFirst(ascii, wide);
  }

  lemma {:induction false} AsciiFirst(a: seq<Unit>, b: seq<Unit>)
    requires SingleByte(a)
    ensures ByteCount(a + b) == |a| + ByteCount(b)
  {
    if a == [] {
      assert a + b == b;
    } else {
      assert (a + b)[1..] == a[1..] + b;
      AsciiFirst(a[1..], b);
    }
  }

  /** For a limit, no way of chunking a text gives a copy with more bytes. */
  ghost predicate NeverExceeds(d: seq<Unit>, maxBytes: nat, size: nat) {
    forall input ::
      Buffered(input, size) && Delivered(input) == d ==> ByteCount(CopyFrom(input, 0, maxBytes).text) <= maxBytes
  }

  /** The first `k` characters take exactly the limit, and those of them that can share a read with the next
      one add one byte each. */
  predicate LandsAt(d: seq<Unit>, maxBytes: nat, size: nat, k: nat)
    requires 1 <= size && k < |d|
  {
    ByteCount(d[..k]) == maxBytes && ByteCount(d[..Max(0, k + 1 - size)]) + Min(k, size - 1) == maxBytes
  }

  predicate LandsOnLimit(d: seq<Unit>, maxBytes: nat, size: nat)
    requires 1 <= size
  {
    exists k: nat :: k < |d| && LandsAt(d, maxBytes, size, k)
  }

  /** Exactly when the limit does bound the bytes of the copy, however the text arrives: the text has no
      more bytes, or it lands on the limit after a buffer of single bytes. */
  lemma WithinLimit(d: seq<Unit>, maxBytes: nat, size: nat)
    requires 2 <= size
    ensures NeverExceeds(d, maxBytes, size) <==> ByteCount(d) <= maxBytes || LandsOnLimit(d, maxBytes, size)
  {
    if ByteCount(d) <= maxBytes || LandsOnLimit(d, maxBytes, size) {
      forall input | Buffered(input, size) && Delivered(input) == d
        ensures ByteCount(CopyFrom(input, 0, maxBytes).text) <= maxBytes
      {
        StaysWithin(input, maxBytes, size);
      }
    } else {
      var input := Exceeding(d, maxBytes, size);
    }
  }

  /** Where the last read of a cut copy starts: it takes no more characters than bytes were left. */
  lemma {:induction false} CutShape(input: seq<Read>, total: nat, maxBytes: nat, size: nat) returns (p: nat)
    requires total <= maxBytes && Buffered(input, size) && CopyFrom(input, total, maxBytes).limited
    ensures var text := CopyFrom(input, total, maxBytes).text;
            && p <= |text| <= p + size && text <= Delivered(input)
            && total + ByteCount(text[..p]) + (|text| - p) <= maxBytes
  {
    CopyIsCappedPrefix(input, total, maxBytes);
    var chunk := input[0].units;
    var bytes := ByteCount(chunk);
    if total + bytes > maxBytes {
      p := 0;
    } else {
      var rest := CopyFrom(input[1..], total + bytes, maxBytes);
      var q := CutShape(input[1..], total + bytes, maxBytes, size);
      p := |chunk| + q;
      assert (chunk + rest.text)[..p] == chunk + rest.text[..q];
      BytesOfJoined(chunk, rest.text[..q]);
    }
  }

  lemma StaysWithin(input: seq<Read>, maxBytes: nat, size: nat)
    requires 2 <= size && Buffered(input, size)
    requires ByteCount(Delivered(input)) <= maxBytes || LandsOnLimit(Delivered(input), maxBytes, size)
    ensures ByteCount(CopyFrom(input, 0, maxBytes).text) <= maxBytes
  {
    var d, c := Delivered(input), CopyFrom(input, 0, maxBytes);
    CopyIsCappedPrefix(input, 0, maxBytes);
    CopyBytes(input, 0, maxBytes, size);
    assert c.text == d[..|c.text|] && d[..|d|] == d;
    if ByteCount(d) <= maxBytes {
      BytesSpread(d, |c.text|, |d|);
    } else if c.limited {
      var p := CutShape(input, 0, maxBytes, size);
      assert c.text[..p] == d[..p];
      LandedWithin(d, p, |c.text|, maxBytes, size);
    }
  }

  lemma LandedWithin(d: seq<Unit>, p: nat, q: nat, maxBytes: nat, size: nat)
    requires 1 <= size && LandsOnLimit(d, maxBytes, size)
    requires p <= q <= |d| && q - p <= size && ByteCount(d[..p]) + (q - p) <= maxBytes
    ensures ByteCount(d[..q]) <= maxBytes
  {
    var k: nat :| k < |d| && LandsAt(d, maxBytes, size, k);
    if q <= k {
      BytesSpread(d, q, k);
    } else if p > k {
      BytesSpread(d, k, p);
    } else {
      BytesSpread(d, Max(0, k + 1 - size), p);
    }
  }

  /** The last prefix within the limit. */
  lemma {:induction false} LastWithin(d: seq<Unit>, n: nat, maxBytes: nat) returns (k: nat)
    requires n <= |d| && ByteCount(d[..n]) > maxBytes
    ensures k < n && ByteCount(d[..k]) <= maxBytes < ByteCount(d[..k + 1])
  {
    if ByteCount(d[..n - 1]) <= maxBytes {
      k := n - 1;
    } else {
      k := LastWithin(d, n - 1, maxBytes);
    }
  }

  /** Otherwise the read that crosses the limit can start so early that it is copied beyond the limit. */
  lemma Exceeding(d: seq<Unit>, maxBytes: nat, size: nat) returns (input: seq<Read>)
    requires 2 <= size && ByteCount(d) > maxBytes && !LandsOnLimit(d, maxBytes, size)
    ensures Buffered(input, size) && Delivered(input) == d && ByteCount(CopyFrom(input, 0, maxBytes).text) > maxBytes
  {
    assert d[..|d|] == d;
    var k := LastWithin(d, |d|, maxBytes);
    var p: nat := Max(0, k + 1 - size);
    BytesSpread(d, p, k);
    assert !LandsAt(d, maxBytes, size, k);
    assert ByteCount(d[..p]) + (k + 1 - p) <= maxBytes;
    input := ReadFrom(d, p, k + 1, maxBytes);
  }

  /** A read of the characters from `p` to `q` that is copied whole although it crosses the limit. */
  lemma ReadFrom(d: seq<Unit>, p: nat, q: nat, maxBytes: nat) returns (input: seq<Read>)
    requires p < q <= |d| && ByteCount(d[..p]) + (q - p) <= maxBytes < ByteCount(d[..q])
    ensures Buffered(input, Max(2, q - p)) && Delivered(input) == d
    ensures CopyFrom(input, 0, maxBytes) == Copy(d[..q], true)
  {
    var chunk := d[p..q];
    var after := TextAlone(d[q..]);
    assert d[..q] == d[..p] + chunk;
    input := CutInside(d[..p], chunk, after, maxBytes);
    assert d == d[..q] + d[q..];
  }

  lemma CutInside(s: seq<Unit>, chunk: seq<Unit>, after: seq<Read>, maxBytes: nat) returns (input: seq<Read>)
    requires chunk != [] && ByteCount(s) + |chunk| <= maxBytes < ByteCount(s + chunk) && Buffered(after, 2)
    ensures Buffered(input, Max(2, |chunk|)) && Delivered(input) == s + chunk + Delivered(after)
    ensures CopyFrom(input, 0, maxBytes) == Copy(s + chunk, true)
  {
    var rest := [Chars(chunk)] + after;
    input := OneByOne(s, true, rest);
    PairsTogether(s);
    BytesOfJoined(s, chunk);
    CopyOneByOne(s, true, rest, 0, maxBytes);
    CopyCut(Chars(chunk), after, ByteCount(s), maxBytes);
    assert chunk[..|chunk|] == chunk;
    DeliveredOneByOne(s, true, rest);
    DeliveredFirst(Chars(chunk), after);
    Associate(s, chunk, Delivered(after));
    BufferedOneByOne(s, true, rest, Max(2, |chunk|));
  }

  /** Without a buffer of limited size the condition is simpler: the first `maxBytes` characters are single
      bytes. */
  lemma WithinLimitUnbuffered(d: seq<Unit>, maxBytes: nat)
    ensures (forall input :: Delivered(input) == d ==> ByteCount(CopyFrom(input, 0, maxBytes).text) <= maxBytes)
       <==> ByteCount(d) <= maxBytes || (|d| >= maxBytes && SingleByte(d[..maxBytes]))
  {
    if ByteCount(d) <= maxBytes || (|d| >= maxBytes && SingleByte(d[..maxBytes])) {
      forall input | Delivered(input) == d
        ensures ByteCount(CopyFrom(input, 0, maxBytes).text) <= maxBytes
      {
        PrefixWithin(input, maxBytes);
      }
    } else {
      OneReadExceeds(d, maxBytes);
      assert ByteCount(CopyFrom([Chars(d)], 0, maxBytes).text) > maxBytes;
    }
  }

  lemma PrefixWithin(input: seq<Read>, maxBytes: nat)
    requires var d := Delivered(input); ByteCount(d) <= maxBytes || (|d| >= maxBytes && SingleByte(d[..maxBytes]))
    ensures ByteCount(CopyFrom(input, 0, maxBytes).text) <= maxBytes
  {
    var d, text := Delivered(input), CopyFrom(input, 0, maxBytes).text;
    CopyIsCappedPrefix(input, 0, maxBytes);
    assert text == d[..|text|] && d[..|d|] == d;
    if ByteCount(d) <= maxBytes {
      BytesSpread(d, |text|, |d|);
    } else {
      assert forall i :: 0 <= i < |text| ==> text[i] == d[..maxBytes][i];
      SingleByteCount(text);
    }
  }

  lemma {:induction false} ManyBytes(s: seq<Unit>)
    ensures ByteCount(s) == |s| ==> SingleByte(s)
  {
    if s != [] {
      BytesCoverUnits(s[1..]);
      ManyBytes(s[1..]);
      if |s| > 1 {
        BytesCoverUnits(s[2..]);
      }
    }
  }

  lemma OneReadExceeds(d: seq<Unit>, maxBytes: nat)
    requires ByteCount(d) > maxBytes && !(|d| >= maxBytes && SingleByte(d[..maxBytes]))
    ensures Delivered([Chars(d)]) == d && ByteCount(CopyFrom([Chars(d)], 0, maxBytes).text) > maxBytes
  {
    assert d != [] && d + [] == d && d[..|d|] == d;
    if |d| >= maxBytes {
      ManyBytes(d[..maxBytes]);
      BytesCoverUnits(d[..maxBytes]);
    }
  }

  // ----- does it matter at one limit

  /** The bytes of a text counted character by character, halves of surrogate pairs apart. */
  function CharBytes(d: seq<Unit>): nat {
    BytesByOne(d, false)
  }

  lemma {:induction false} CharBytesGlue(a: seq<Unit>, b: seq<Unit>)
    ensures CharBytes(a + b) == CharBytes(a) + CharBytes(b)
  {
    if a == [] {
      assert a + b == b;
    } else {
      CharBytesGlue(a[1..], b);
      assert (a + b)[1..] == a[1..] + b && (a + b)[..1] == a[..1];
    }
  }

  lemma {:induction false} CharBytesCover(s: seq<Unit>)
    ensures |s| <= CharBytes(s) && ByteCount(s) <= CharBytes(s)
  {
    if s != [] {
      CharBytesCover(s[1..]);
      BytesCoverUnits(s[..1]);
      assert s == s[..1] + s[1..];
      BytesOfJoined(s[..1], s[1..]);
    }
  }

  lemma CharBytesSpread(d: seq<Unit>, i: nat, j: nat)
    requires i <= j <= |d|
    ensures CharBytes(d[..i]) + (j - i) <= CharBytes(d[..j])
  {
    assert d[..j] == d[..i] + d[i..j];
    CharBytesGlue(d[..i], d[i..j]);
    CharBytesCover(d[i..j]);
  }

  /** What the reads are counted as lies between the bytes of the text and its bytes character by character. */
  lemma {:induction false} ChunkBytesBetween(input: seq<Read>)
    ensures ByteCount(Delivered(input)) <= ChunkBytes(input) <= CharBytes(Delivered(input))
  {
    if input != [] && !Stops(input[0]) {
      ChunkBytesBetween(input[1..]);
      BytesOfJoined(input[0].units, Delivered(input[1..]));
      CharBytesGlue(input[0].units, Delivered(input[1..]));
      CharBytesCover(input[0].units);
    }
  }

  /** How many characters are copied when they are read one by one: all before which a byte is left. */
  function ShortestCopy(d: seq<Unit>, maxBytes: nat): (n: nat)
    ensures n <= |d|
    ensures n > 0 ==> CharBytes(d[..n - 1]) < maxBytes
    ensures n < |d| ==> CharBytes(d[..n]) >= maxBytes
  {
    FirstFull(d, maxBytes, 0)
  }

  function FirstFull(d: seq<Unit>, maxBytes: nat, k: nat): (n: nat)
    requires k <= |d| && (k > 0 ==> CharBytes(d[..k - 1]) < maxBytes)
    ensures k <= n <= |d|
    ensures n > 0 ==> CharBytes(d[..n - 1]) < maxBytes
    ensures n < |d| ==> CharBytes(d[..n]) >= maxBytes
    decreases |d| - k
  {
    if k == |d| || CharBytes(d[..k]) >= maxBytes then k else FirstFull(d, maxBytes, k + 1)
  }

  /** One more character than that can be copied: a read that ends with it leaves room for as many
      characters. */
  predicate GoesFurther(d: seq<Unit>, maxBytes: nat, size: nat)
    requires 1 <= size
  {
    var n := ShortestCopy(d, maxBytes);
    var p := Max(0, n + 1 - size);
    n < |d| && ByteCount(d[..p]) + (n + 1 - p) <= maxBytes
  }

  /** The limit is never hit, or always hit and always at the same character. */
  predicate OneCut(d: seq<Unit>, maxBytes: nat, size: nat)
    requires 1 <= size
  {
    CharBytes(d) <= maxBytes || (ByteCount(d) > maxBytes && !GoesFurther(d, maxBytes, size))
  }

  /** Exactly when the way a text arrives does not matter at a given limit. */
  lemma ChunkingIsIrrelevantAt(d: seq<Unit>, maxBytes: nat, size: nat)
    requires 2 <= size
    ensures AlikeAt(d, maxBytes, size) <==> OneCut(d, maxBytes, size)
  {
    if OneCut(d, maxBytes, size) {
      forall a, b | Buffered(a, size) && Buffered(b, size) && Delivered(a) == d && Delivered(b) == d
        ensures CopyFrom(a, 0, maxBytes) == CopyFrom(b, 0, maxBytes)
      {
        TheCopy(a, maxBytes, size);
        TheCopy(b, maxBytes, size);
      }
    } else {
      var a, b := TwoCopies(d, maxBytes, size);
    }
  }

  /** However the text arrives, at least these characters are copied. */
  lemma {:induction false} CopyAtLeast(input: seq<Read>, total: nat, maxBytes: nat, n: nat)
    requires 1 <= n <= |Delivered(input)| && total + CharBytes(Delivered(input)[..n - 1]) < maxBytes
    ensures n <= |CopyFrom(input, total, maxBytes).text|
  {
    var r, more := input[0], input[1..];
    var d := Delivered(more);
    assert input == [r] + more;
    DeliveredFirst(r, more);
    CharBytesCover(r.units);
    if n <= |r.units| {
      CharBytesCover((r.units + d)[..n - 1]);
      FirstIsCopied(r, more, total, maxBytes, n);
    } else {
      assert (r.units + d)[..n - 1] == r.units + d[..n - 1 - |r.units|];
      CharBytesGlue(r.units, d[..n - 1 - |r.units|]);
      CopyAtLeast(more, total + ByteCount(r.units), maxBytes, n - |r.units|);
      CopyFirst(r, more, total, maxBytes);
    }
  }

  lemma FirstIsCopied(r: Read, more: seq<Read>, total: nat, maxBytes: nat, n: nat)
    requires !Stops(r) && 1 <= n <= |r.units| && total + (n - 1) < maxBytes
    ensures n <= |CopyFrom([r] + more, total, maxBytes).text|
  {
    if total + ByteCount(r.units) <= maxBytes {
      CopyFirst(r, more, total, maxBytes);
    } else {
      CopyCut(r, more, total, maxBytes);
    }
  }

  lemma TheCopy(input: seq<Read>, maxBytes: nat, size: nat)
    requires 2 <= size && Buffered(input, size) && OneCut(Delivered(input), maxBytes, size)
    ensures var d := Delivered(input);
            CopyFrom(input, 0, maxBytes)
              == if CharBytes(d) <= maxBytes then Copy(d, false) else Copy(d[..ShortestCopy(d, maxBytes)], true)
  {
    var d := Delivered(input);
    ChunkBytesBetween(input);
    CopyIsCappedPrefix(input, 0, maxBytes);
    if CharBytes(d) > maxBytes {
      var n := ShortestCopy(d, maxBytes);
      if n > 0 {
        CopyAtLeast(input, 0, maxBytes, n);
      }
      NoFurther(input, maxBytes, size);
    }
  }

  lemma NoFurther(input: seq<Read>, maxBytes: nat, size: nat)
    requires 2 <= size && Buffered(input, size) && CopyFrom(input, 0, maxBytes).limited
    requires !GoesFurther(Delivered(input), maxBytes, size)
    ensures |CopyFrom(input, 0, maxBytes).text| <= ShortestCopy(Delivered(input), maxBytes)
  {
    var d, text := Delivered(input), CopyFrom(input, 0, maxBytes).text;
    var p := CutShape(input, 0, maxBytes, size);
    assert text[..p] == d[..p];
    FurtherIf(d, maxBytes, size, p, |text|);
  }

  /** A copy of more characters whose last read starts at `p` shows that the text goes further. */
  lemma FurtherIf(d: seq<Unit>, maxBytes: nat, size: nat, p: nat, q: nat)
    requires 1 <= size && p <= q <= |d| && q - p <= size && ByteCount(d[..p]) + (q - p) <= maxBytes
    ensures ShortestCopy(d, maxBytes) < q ==> GoesFurther(d, maxBytes, size)
  {
    var n := ShortestCopy(d, maxBytes);
    if n < q {
      BytesSpread(d, Max(0, n + 1 - size), p);
    }
  }

  /** Otherwise there are two ways to read it with different copies. */
  lemma TwoCopies(d: seq<Unit>, maxBytes: nat, size: nat) returns (a: seq<Read>, b: seq<Read>)
    requires 2 <= size && !OneCut(d, maxBytes, size)
    ensures Buffered(a, size) && Buffered(b, size) && Delivered(a) == d && Delivered(b) == d
    ensures CopyFrom(a, 0, maxBytes) != CopyFrom(b, 0, maxBytes)
  {
    a := ShortRead(d, maxBytes);
    if ByteCount(d) <= maxBytes {
      b := UncutRead(d, maxBytes);
    } else {
      b := LongRead(d, maxBytes, size);
    }
  }

  lemma UncutRead(d: seq<Unit>, maxBytes: nat) returns (input: seq<Read>)
    requires ByteCount(d) <= maxBytes
    ensures Buffered(input, 2) && Delivered(input) == d && CopyFrom(input, 0, maxBytes) == Copy(d, false)
  {
    PairsTogether(d);
    input := AfterText(d, true, [], [], [], maxBytes);
    assert d + [] + [] == d && d + [] == d;
  }

  /** A read of one character that crosses the limit. */
  lemma CutAt(d: seq<Unit>, pairs: bool, k: nat, maxBytes: nat) returns (input: seq<Read>)
    requires k < |d| && BytesByOne(d[..k], pairs) <= maxBytes < BytesByOne(d[..k], pairs) + ByteCount([d[k]])
    ensures Buffered(input, 2) && Delivered(input) == d
    ensures CopyFrom(input, 0, maxBytes)
         == Copy(if BytesByOne(d[..k], pairs) == maxBytes then d[..k] else d[..k + 1], true)
  {
    var after := TextAlone(d[k + 1..]);
    CutChar(d[k], after, BytesByOne(d[..k], pairs), maxBytes);
    input := AfterText(d[..k], pairs, [d[k]], d[k + 1..], [Chars([d[k]])] + after, maxBytes);
    AroundChar(d, k);
  }

  lemma AroundChar(d: seq<Unit>, k: nat)
    requires k < |d|
    ensures d[..k] + [d[k]] == d[..k + 1] && d[..k] + [d[k]] + d[k + 1..] == d && d[..k] + [] == d[..k]
  {
  }

  lemma CutChar(c: Unit, after: seq<Read>, total: nat, maxBytes: nat)
    requires total <= maxBytes < total + ByteCount([c])
    ensures CopyFrom([Chars([c])] + after, total, maxBytes) == Copy(if total == maxBytes then [] else [c], true)
    ensures Delivered([Chars([c])] + after) == [c] + Delivered(after)
  {
    DeliveredFirst(Chars([c]), after);
    CopyCut(Chars([c]), after, total, maxBytes);
    assert [c][..0] == [] && [c][..1] == [c];
  }

  lemma OneMoreChar(d: seq<Unit>, k: nat)
    requires k < |d|
    ensures CharBytes(d[..k + 1]) == CharBytes(d[..k]) + ByteCount([d[k]])
  {
    AroundChar(d, k);
    CharBytesGlue(d[..k], [d[k]]);
    CharBytesOfOne(d[k]);
  }

  lemma CharBytesOfOne(c: Unit)
    ensures CharBytes([c]) == ByteCount([c])
  {
    var s := [c];
    assert s[..Step(s, false)] == s && s[Step(s, false)..] == [];
    assert BytesByOne(s, false) == ByteCount(s) + BytesByOne([], false);
  }

  /** Read one by one, the shortest copy. */
  lemma ShortRead(d: seq<Unit>, maxBytes: nat) returns (input: seq<Read>)
    requires CharBytes(d) > maxBytes
    ensures Buffered(input, 2) && Delivered(input) == d
    ensures CopyFrom(input, 0, maxBytes) == Copy(d[..ShortestCopy(d, maxBytes)], true)
  {
    var n := ShortestCopy(d, maxBytes);
    assert d[..|d|] == d;
    if n < |d| && CharBytes(d[..n]) == maxBytes {
      BytesCoverUnits([d[n]]);
      input := CutAt(d, false, n, maxBytes);
    } else {
      OneMoreChar(d, n - 1);
      input := CutAt(d, false, n - 1, maxBytes);
    }
  }

  /** A longer copy, where one is possible. */
  lemma LongRead(d: seq<Unit>, maxBytes: nat, size: nat) returns (input: seq<Read>)
    requires 2 <= size && ByteCount(d) > maxBytes && GoesFurther(d, maxBytes, size)
    ensures Buffered(input, size) && Delivered(input) == d
    ensures |CopyFrom(input, 0, maxBytes).text| > ShortestCopy(d, maxBytes)
  {
    var n := ShortestCopy(d, maxBytes);
    if ByteCount(d[..n + 1]) > maxBytes {
      input := ReadFrom(d, Max(0, n + 1 - size), n + 1, maxBytes);
    } else {
      input := LaterRead(d, n, maxBytes);
    }
  }

  lemma LaterRead(d: seq<Unit>, n: nat, maxBytes: nat) returns (input: seq<Read>)
    requires n < |d| && ByteCount(d[..n + 1]) <= maxBytes < ByteCount(d)
    ensures Buffered(input, 2) && Delivered(input) == d && |CopyFrom(input, 0, maxBytes).text| > n
  {
    assert d[..|d|] == d;
    var k := LastWithin(d, |d|, maxBytes);
    if k <= n {
      BytesSpread(d, k + 1, n + 1);
    }
    PairsTogether(d[..k]);
    AroundChar(d, k);
    BytesOfJoined(d[..k], [d[k]]);
    input := CutAt(d, true, k, maxBytes);
  }

  // ----- the cut, read by read

  /** The first read that does not fit is cut at as many characters as there are bytes left; the reads before it
      are copied whole, and nothing after it is. */
  lemma {:induction false} CutInRead(input: seq<Read>, k: nat, total: nat, maxBytes: nat)
    requires k < |input| && !Stops(input[k]) && forall i :: 0 <= i < k ==> !Stops(input[i])
    requires total + ChunkBytes(input[..k]) <= maxBytes < total + ChunkBytes(input[..k]) + ByteCount(input[k].units)
    ensures var left := maxBytes - total - ChunkBytes(input[..k]);
            CopyFrom(input, total, maxBytes)
              == Resumed(Delivered(input[..k]), Copy(input[k].units[..Min(|input[k].units|, left)], true))
  {
    var r, more := input[0], input[1..];
    if k > 0 {
      assert !Stops(r);
      FirstRead(input, k);
      assert more[k - 1] == input[k];
      CutInRead(more, k - 1, total + ByteCount(r.units), maxBytes);
      var cut := input[k].units[..Min(|input[k].units|, maxBytes - total - ChunkBytes(input[..k]))];
      ReadBefore(input, Delivered(more[..k - 1]), total, maxBytes, cut);
    } else {
      CutAtOnce(input, total, maxBytes);
    }
  }

  lemma CutAtOnce(input: seq<Read>, total: nat, maxBytes: nat)
    requires input != [] && !Stops(input[0]) && total <= maxBytes < total + ByteCount(input[0].units)
    ensures CopyFrom(input, total, maxBytes) == Resumed([], Copy(input[0].units[..Min(|input[0].units|, maxBytes - total)], true))
  {
  }

  lemma ReadBefore(input: seq<Read>, d: seq<Unit>, total: nat, maxBytes: nat, cut: seq<Unit>)
    requires input != [] && !Stops(input[0]) && total + ByteCount(input[0].units) <= maxBytes
    requires CopyFrom(input[1..], total + ByteCount(input[0].units), maxBytes) == Resumed(d, Copy(cut, true))
    ensures CopyFrom(input, total, maxBytes) == Resumed(input[0].units + d, Copy(cut, true))
  {
    ResumedTwice(input[0].units, d, Copy(cut, true));
  }

  lemma FirstRead(input: seq<Read>, k: nat)
    requires 0 < k <= |input| && !Stops(input[0])
    ensures var front, more := input[..k], input[1..][..k - 1];
            ChunkBytes(front) == ByteCount(input[0].units) + ChunkBytes(more) && Delivered(front) == input[0].units + Delivered(more)
  {
    assert input[..k][1..] == input[1..][..k - 1];
  }
}
