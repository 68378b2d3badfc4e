/** The names of reverse lookups (src/Diagnostics/Dns/DnsQuery.cs) and their reader: section 3.5 of
    RFC 1035 for IPv4, section 2.5 of RFC 3596 for IPv6. */
module ReverseName {
  import opened Options
  import opened Text
  import opened Numerals
  import opened IpBlocklist

  const SUFFIX_V4: seq<string> := ["in-addr", "arpa"]

  const SUFFIX_V6: seq<string> := ["ip6", "arpa"]

  /** The nibbles of bytes `i` and below, low one first, from byte `i` down to the first. */
  function Nibbles(a: Bytes, i: nat): seq<string>
    requires ValidBytes(a) && i <= |a|
  {
    if i == 0 then [] else [[HexChar(a[i - 1] % 16)], [HexChar(a[i - 1] / 16)]] + Nibbles(a, i - 1)
  }

  function Labels(a: Bytes): seq<string>
    requires ValidBytes(a)
  {
    if |a| == 4 then [Dec(a[3]), Dec(a[2]), Dec(a[1]), Dec(a[0])] + SUFFIX_V4 else Nibbles(a, |a|) + SUFFIX_V6
  }

  function NameOf(a: Bytes): string
    requires ValidBytes(a)
  {
    Join(Labels(a), ".")
  }

  /** Each label followed by a dot. */
  function DotEnded(parts: seq<string>): string {
    if parts == [] then "" else parts[0] + "." + DotEnded(parts[1..])
  }

  lemma {:induction false} DotEndedGlue(a: seq<string>, b: seq<string>)
    ensures DotEnded(a + b) == DotEnded(a) + DotEnded(b)
  {
    if a == [] {
      assert a + b == b;
    } else {
      DotEndedGlue(a[1..], b);
      assert (a + b)[1..] == a[1..] + b;
    }
  }

  lemma {:induction false} JoinDotEnded(a: seq<string>, b: seq<string>)
    requires b != []
    ensures Join(a + b, ".") == DotEnded(a) + Join(b, ".")
  {
    if a == [] {
      assert a + b == b;
    } else {
      JoinDotEnded(a[1..], b);
      assert (a + b)[1..] == a[1..] + b;
    }
  }

  lemma DotEndedSnoc(done: seq<string>, x: string)
    ensures DotEnded(done + [x]) == DotEnded(done) + x + "."
  {
    DotEndedGlue(done, [x]);
    assert DotEnded([x]) == x + ".";
    assert DotEnded(done) + (x + ".") == DotEnded(done) + x + ".";
  }

  method ReverseNameOf(address: Bytes) returns (name: string)
    requires ValidBytes(address)
    ensures name == NameOf(address)
  {
    if |address| == 4 {
      name := Dec(address[3]) + "." + Dec(address[2]) + "." + Dec(address[1]) + "." + Dec(address[0]) + ".in-addr.arpa";
      Quad(address);
    } else {
      name := Ip6Name(address);
    }
  }

  lemma TwoMore(builder: string, a: Bytes, i: nat)
    requires ValidBytes(a) && i < |a|
    ensures builder + [HexChar(a[i] % 16)] + "." + [HexChar(a[i] / 16)] + "." + DotEnded(Nibbles(a, i))
         == builder + DotEnded(Nibbles(a, i + 1))
  {
    var low, high, rest := [HexChar(a[i] % 16)], [HexChar(a[i] / 16)], DotEnded(Nibbles(a, i));
    var n := Nibbles(a, i + 1);
    assert n[0] == low && n[1..][0] == high && n[1..][1..] == Nibbles(a, i);
    assert DotEnded(n) == low + "." + (high + "." + rest);
    assert builder + low + "." + high + "." + rest == builder + (low + "." + (high + "." + rest));
  }

  method Ip6Name(address: Bytes) returns (name: string)
    requires ValidBytes(address) && |address| == 16
    ensures name == NameOf(address)
  {
    var builder := "";
    var i := |address| - 1;
    while i >= 0
      invariant -1 <= i < |address|
      invariant builder + DotEnded(Nibbles(address, i + 1)) == DotEnded(Nibbles(address, |address|))
    {
      TwoMore(builder, address, i);
      builder := builder + [HexChar(address[i] % 16)] + ".";
      builder := builder + [HexChar(address[i] / 16)] + ".";
      i := i - 1;
    }
    assert builder + "" == builder;
    name := builder + "ip6.arpa";
    JoinDotEnded(Nibbles(address, |address|), SUFFIX_V6);
    assert Join(SUFFIX_V6, ".") == "ip6.arpa";
  }

  lemma Quad(a: Bytes)
    requires ValidBytes(a) && |a| == 4
    ensures NameOf(a) == Dec(a[3]) + "." + Dec(a[2]) + "." + Dec(a[1]) + "." + Dec(a[0]) + ".in-addr.arpa"
  {
    var w, x, y, z := Dec(a[3]), Dec(a[2]), Dec(a[1]), Dec(a[0]);
    DotEndedSnoc([w], x);
    DotEndedSnoc([w] + [x], y);
    DotEndedSnoc([w] + [x] + [y], z);
    assert [w, x, y, z] == [w] + [x] + [y] + [z];
    assert DotEnded([w]) == w + ".";
    JoinDotEnded([w, x, y, z], SUFFIX_V4);
    assert Join(SUFFIX_V4, ".") == "in-addr.arpa";
    var digits := w + "." + x + "." + y + "." + z;
    assert digits + "." + "in-addr.arpa" == digits + ".in-addr.arpa";
  }

  // ----- the reader

  predicate IsNibble(s: string) { |s| == 1 && IsHex(s[0]) }

  /** Bytes from nibble labels, in the order of the address. */
  function BytesOf(labels: seq<string>): Option<Bytes> {
    if labels == [] then Some([])
    else if |labels| < 2 || !IsNibble(labels[0]) || !IsNibble(labels[1]) then None
    else
      var rest := BytesOf(labels[2..]);
      if rest.None? then None else Some(rest.value + [HexDigit(labels[1][0]) * 16 + HexDigit(labels[0][0])])
  }

  /** Reads a reverse name back. */
  function AddressOf(name: string): Option<Bytes> {
    var labels := Split(name, '.');
    var n := |labels| - 2;
    if n < 0 then None
    else if labels[n..] == SUFFIX_V4 then
      if n == 4 && forall i :: 0 <= i < 4 ==> All(labels[i], IsDigit) then
        Some([DecValue(labels[3]), DecValue(labels[2]), DecValue(labels[1]), DecValue(labels[0])])
      else None
    else if labels[n..] == SUFFIX_V6 then BytesOf(labels[..n])
    else None
  }

  lemma {:induction false} NibblesReadBack(a: Bytes, i: nat)
    requires ValidBytes(a) && i <= |a|
    ensures BytesOf(Nibbles(a, i)) == Some(a[..i])
  {
    if i > 0 {
      var rest := Nibbles(a, i - 1);
      NibblesReadBack(a, i - 1);
      TwoNibbles(a[i - 1], rest);
      assert Nibbles(a, i) == [[HexChar(a[i - 1] % 16)], [HexChar(a[i - 1] / 16)]] + rest;
      assert a[..i] == a[..i - 1] + [a[i - 1]];
    }
  }

  lemma TwoNibbles(b: int, rest: seq<string>)
    requires 0 <= b <= 255 && BytesOf(rest).Some?
    ensures BytesOf([[HexChar(b % 16)], [HexChar(b / 16)]] + rest) == Some(BytesOf(rest).value + [b])
  {
    var n := [[HexChar(b % 16)], [HexChar(b / 16)]] + rest;
    assert n[2..] == rest;
  }

  predicate AllNibbles(labels: seq<string>) {
    forall k :: 0 <= k < |labels| ==> |labels[k]| == 1 && Lacks(labels[k], '.')
  }

  lemma {:induction false} NibbleLabels(a: Bytes, i: nat)
    requires ValidBytes(a) && i <= |a|
    ensures |Nibbles(a, i)| == 2 * i && AllNibbles(Nibbles(a, i))
  {
    if i > 0 {
      NibbleLabels(a, i - 1);
      assert AllNibbles([[HexChar(a[i - 1] % 16)], [HexChar(a[i - 1] / 16)]]);
    }
  }

  lemma LabelsLackDots(a: Bytes)
    requires ValidBytes(a)
    ensures forall i :: 0 <= i < |Labels(a)| ==> Lacks(Labels(a)[i], '.')
  {
    if |a| == 16 {
      NibbleLabels(a, 16);
    }
  }

  lemma QuadReadsBack(a: Bytes)
    requires ValidBytes(a) && |a| == 4
    ensures var l := Labels(a); |l| == 6 && l[4..] == SUFFIX_V4 && (forall i :: 0 <= i < 4 ==> All(l[i], IsDigit) && DecValue(l[i]) == a[3 - i])
  {
    DecRoundTrip(a[0]);
    DecRoundTrip(a[1]);
    DecRoundTrip(a[2]);
    DecRoundTrip(a[3]);
  }

  /** The reader recovers every address from its reverse name; so no two addresses share a name. */
  lemma RoundTrip(a: Bytes)
    requires ValidBytes(a)
    ensures AddressOf(NameOf(a)) == Some(a)
  {
    LabelsLackDots(a);
    SplitJoin(Labels(a), '.');
    if |a| == 4 {
      QuadReadsBack(a);
      assert a == [a[0], a[1], a[2], a[3]];
    } else {
      NibblesReadBack(a, 16);
      NibbleLabels(a, 16);
      assert Labels(a)[32..] == SUFFIX_V6 && Labels(a)[..32] == Nibbles(a, 16);
      assert a[..16] == a;
    }
  }

  lemma Injective(a: Bytes, b: Bytes)
    requires ValidBytes(a) && ValidBytes(b) && NameOf(a) == NameOf(b)
    ensures a == b
  {
    RoundTrip(a);
    RoundTrip(b);
  }

  lemma {:induction false} DotEndedLength(parts: seq<string>)
    requires AllNibbles(parts)
    ensures |DotEnded(parts)| == 2 * |parts|
  {
    if parts != [] {
      DotEndedLength(parts[1..]);
    }
  }

  /** The name of an IPv6 address always fills the 72 characters reserved for it. */
  lemma Ip6Length(a: Bytes)
    requires ValidBytes(a) && |a| == 16
    ensures |NameOf(a)| == 72
  {
    NibbleLabels(a, 16);
    DotEndedLength(Nibbles(a, 16));
    JoinDotEnded(Nibbles(a, 16), SUFFIX_V6);
    assert Join(SUFFIX_V6, ".") == "ip6.arpa";
  }

  // ----- label by label

  lemma {:induction false} NibbleAt(a: Bytes, i: nat, k: nat)
    requires ValidBytes(a) && i <= |a| && k < 2 * i
    ensures |Nibbles(a, i)| == 2 * i && Nibbles(a, i)[k] == NibbleName(a[i - 1 - k / 2], k % 2 == 0)
  {
    NibbleLabels(a, i);
    var b, rest := a[i - 1], Nibbles(a, i - 1);
    var two := [[HexChar(b % 16)], [HexChar(b / 16)]];
    assert Nibbles(a, i) == two + rest;
    TwoNames(b);
    if k >= 2 {
      NibbleAt(a, i - 1, k - 2);
      Later(two, rest, k);
    }
  }

  lemma Later(two: seq<string>, rest: seq<string>, k: nat)
    requires |two| == 2 <= k < 2 + |rest|
    ensures (two + rest)[k] == rest[k - 2] && (k - 2) / 2 == k / 2 - 1 && (k - 2) % 2 == k % 2
  {
  }

  /** The low or the high hexadecimal digit of a byte, by its name. */
  function NibbleName(b: int, low: bool): string
    requires 0 <= b <= 255
  {
    ["0123456789abcdef"[if low then b % 16 else b / 16]]
  }

  lemma TwoNames(b: int)
    requires 0 <= b <= 255
    ensures [HexChar(b % 16)] == NibbleName(b, true) && [HexChar(b / 16)] == NibbleName(b, false)
  {
    DigitNames(b % 16);
    DigitNames(b / 16);
  }

  /** The labels of the name of an IPv6 address: its 32 hexadecimal digits from the last to the first, then `ip6`
      and `arpa`. */
  lemma Ip6LabelAt(a: Bytes, k: nat)
    requires ValidBytes(a) && |a| == 16 && k < 34
    ensures var labels, b := Split(NameOf(a), '.'), a[if k < 32 then 15 - k / 2 else 0];
            |labels| == 34 && labels[k] == if k == 32 then "ip6" else if k == 33 then "arpa" else NibbleName(b, k % 2 == 0)
  {
    LabelsLackDots(a);
    SplitJoin(Labels(a), '.');
    NibbleLabels(a, 16);
    if k < 32 {
      NibbleAt(a, 16, k);
    }
  }
}
