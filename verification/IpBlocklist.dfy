/** The server's blocklist (src/Contracts/Networking/IpBlocklist.cs) and the block tests of the web
    client (src/Web/src/lib/validation.ts). Addresses are sequences of 4 or 16 bytes. */
module IpBlocklist {
  import opened Options
  import opened Text
  import opened Numerals
  import opened Addresses

  type Bytes = seq<int>

  predicate ValidBytes(a: Bytes) {
    (|a| == 4 || |a| == 16) && forall i :: 0 <= i < |a| ==> 0 <= a[i] <= 255
  }

  type Address = a: Bytes | ValidBytes(a) witness [0, 0, 0, 0]

  /** A network in CIDR notation. */
  datatype Net = Net(base: Bytes, length: nat)

  function Span(bits: nat): (d: nat)
    ensures d > 0
  {
    if bits == 0 then 1 else 2 * Span(bits - 1)
  }

  /** Equal in the first `bits` bits: in the whole bytes, and in the high bits of the next one. */
  predicate SamePrefix(a: Bytes, b: Bytes, bits: nat)
    requires |a| == |b| && bits <= 8 * |a|
  {
    && (forall i :: 0 <= i < bits / 8 ==> a[i] == b[i])
    && (bits % 8 != 0 ==> a[bits / 8] / Span(8 - bits % 8) == b[bits / 8] / Span(8 - bits % 8))
  }

  predicate Contains(n: Net, a: Bytes) {
    |a| == |n.base| && n.length <= 8 * |a| && SamePrefix(a, n.base, n.length)
  }

  function V4(a: int, b: int, c: int, length: nat): Net { Net([a, b, c, 0], length) }

  /** A network given by the first four bytes of its base. */
  function V6(a: int, b: int, c: int, d: int, length: nat): Net {
    Net([a, b, c, d, 0, 0, 0, 0, 0, 0, 0, 0, 0, 0, 0, 0], length)
  }

  const DEFAULT_NETS_V4: seq<Net> := [
    V4(0, 0, 0, 8), V4(10, 0, 0, 8), V4(100, 64, 0, 10), V4(127, 0, 0, 8), V4(169, 254, 0, 16),
    V4(172, 16, 0, 12), V4(192, 0, 0, 24), V4(192, 0, 2, 24), V4(192, 88, 99, 24), V4(192, 168, 0, 16),
    V4(198, 18, 0, 15), V4(198, 51, 100, 24), V4(203, 0, 113, 24), V4(224, 0, 0, 4), V4(240, 0, 0, 4)]

  const LOOPBACK_V6: Net := Net([0, 0, 0, 0, 0, 0, 0, 0, 0, 0, 0, 0, 0, 0, 0, 1], 128)

  const LOCAL_NAT64: Net := Net([0, 0x64, 0xff, 0x9b, 0, 1, 0, 0, 0, 0, 0, 0, 0, 0, 0, 0], 48)

  const DEFAULT_NETS_V6: seq<Net> := [
    V6(0, 0, 0, 0, 96), LOOPBACK_V6, LOCAL_NAT64, V6(1, 0, 0, 0, 64), V6(0x20, 1, 0, 0, 23), V6(0x20, 1, 0x0d, 0xb8, 32),
    V6(0x20, 2, 0, 0, 16), V6(0x3f, 0xff, 0, 0, 20), V6(0xfc, 0, 0, 0, 7), V6(0xfe, 0x80, 0, 0, 10),
    V6(0xfe, 0xc0, 0, 0, 10), V6(0xff, 0, 0, 0, 8)]

  const DEFAULT_NETS: seq<Net> := DEFAULT_NETS_V4 + DEFAULT_NETS_V6

  const METADATA_ADDRESSES: seq<Bytes> := [
    [169, 254, 169, 254], [169, 254, 170, 2], [100, 100, 100, 200],
    [0xfd, 0, 0x0e, 0xc2, 0, 0, 0, 0, 0, 0, 0, 0, 0, 0, 2, 0x54]]

  predicate IsMapped(a: Bytes) {
    |a| == 16 && a[..12] == [0, 0, 0, 0, 0, 0, 0, 0, 0, 0, 255, 255]
  }

  predicate IsNat64(a: Bytes) {
    |a| == 16 && a[..12] == [0, 0x64, 0xff, 0x9b, 0, 0, 0, 0, 0, 0, 0, 0]
  }

  predicate Is6to4(a: Bytes) { |a| == 16 && a[0] == 0x20 && a[1] == 2 }

  /** The forms of an address that are looked up: an IPv4 address inside it is unwrapped. */
  function Expand(a: Bytes): seq<Bytes>
    requires ValidBytes(a)
  {
    if IsMapped(a) then [a[12..]]
    else if IsNat64(a) then [a, a[12..]]
    else if Is6to4(a) then [a, a[2..6]]
    else [a]
  }

  predicate InAny(nets: seq<Net>, a: Bytes) {
    exists i :: 0 <= i < |nets| && Contains(nets[i], a)
  }

  /** The declarative meaning: some form of the address is a metadata address or in some network. */
  predicate Blocked(nets: seq<Net>, a: Bytes)
    requires ValidBytes(a)
  {
    exists k :: 0 <= k < |Expand(a)| && (Expand(a)[k] in METADATA_ADDRESSES || InAny(nets, Expand(a)[k]))
  }

  class IpBlocklist {
    const networks: seq<Net>

    /** Configured networks are added to the default ones. */
    constructor (extra: seq<Net>)
      ensures networks == DEFAULT_NETS + extra
    {
      var list := [];
      var all := DEFAULT_NETS + extra;
      for i := 0 to |all|
        invariant list == all[..i]
      {
        list := list + [all[i]];
      }
      networks := list;
    }

    method IsBlocked(address: Bytes) returns (blocked: bool)
      requires ValidBytes(address)
      ensures blocked <==> Blocked(networks, address)
    {
      var candidates := ExpandList(address);
      for k := 0 to |candidates|
        invariant forall j :: 0 <= j < k ==> candidates[j] !in METADATA_ADDRESSES && !InAny(networks, candidates[j])
      {
        if candidates[k] in METADATA_ADDRESSES {
          return true;
        }
        for i := 0 to |networks|
          invariant forall j :: 0 <= j < i ==> !Contains(networks[j], candidates[k])
        {
          if Contains(networks[i], candidates[k]) {
            return true;
          }
        }
      }
      return false;
    }
  }

  method ExpandList(address: Bytes) returns (candidates: seq<Bytes>)
    requires ValidBytes(address)
    ensures candidates == Expand(address)
  {
    if |address| == 16 {
      assert address[..12] == address[..10] + [address[10], address[11]];
      if address[..10] == [0, 0, 0, 0, 0, 0, 0, 0, 0, 0] && address[10] == 255 && address[11] == 255 {
        return [address[12..]];
      }
      candidates := [address];
      var nat64 := IsNat64WellKnown(address);
      if nat64 {
        candidates := candidates + [address[12..]];
      } else if address[0] == 0x20 && address[1] == 0x02 {
        candidates := candidates + [address[2..6]];
      }
    } else {
      candidates := [address];
    }
  }

  method IsNat64WellKnown(bytes: Bytes) returns (yes: bool)
    requires |bytes| == 16
    ensures yes <==> IsNat64(bytes)
  {
    if bytes[0] != 0x00 || bytes[1] != 0x64 || bytes[2] != 0xff || bytes[3] != 0x9b {
      return false;
    }
    for i := 4 to 12
      invariant forall k :: 4 <= k < i ==> bytes[k] == 0
    {
      if bytes[i] != 0 {
        assert bytes[..12][i] != 0;
        return false;
      }
    }
    return true;
  }

  // ----- what the default networks amount to

  predicate In4(a: Bytes)
    requires |a| == 4
  {
    || a[0] == 0 || a[0] == 10 || (a[0] == 100 && 64 <= a[1] <= 127) || a[0] == 127
    || (a[0] == 169 && a[1] == 254) || (a[0] == 172 && 16 <= a[1] <= 31)
    || (a[0] == 192 && a[1] == 0 && (a[2] == 0 || a[2] == 2)) || (a[0] == 192 && a[1] == 88 && a[2] == 99)
    || (a[0] == 192 && a[1] == 168) || (a[0] == 198 && 18 <= a[1] <= 19) || (a[0] == 198 && a[1] == 51 && a[2] == 100)
    || (a[0] == 203 && a[1] == 0 && a[2] == 113) || 224 <= a[0]
  }

  predicate AllZero(a: Bytes, n: nat) { n <= |a| && forall i :: 0 <= i < n ==> a[i] == 0 }

  predicate In6(a: Bytes)
    requires |a| == 16
  {
    || AllZero(a, 12)
    || (a[0] == 0 && a[1] == 0x64 && a[2] == 0xff && a[3] == 0x9b && a[4] == 0 && a[5] == 1)
    || (a[0] == 1 && AllZero(a[1..], 7))
    || (a[0] == 0x20 && a[1] == 1 && a[2] <= 1)
    || (a[0] == 0x20 && a[1] == 1 && a[2] == 0x0d && a[3] == 0xb8)
    || (a[0] == 0x20 && a[1] == 2)
    || (a[0] == 0x3f && a[1] == 0xff && a[2] <= 0x0f)
    || 0xfc <= a[0] <= 0xfd
    || (a[0] == 0xfe && 0x80 <= a[1])
    || a[0] == 0xff
  }

  predicate InDefault(a: Bytes)
    requires ValidBytes(a)
  {
    if |a| == 4 then In4(a) else In6(a)
  }

  /** One network of the default list as a range of byte values. */
  predicate Range4(i: nat, a: Bytes)
    requires i < 15 && |a| == 4
  {
    match i
    case 0 => a[0] == 0
    case 1 => a[0] == 10
    case 2 => a[0] == 100 && 64 <= a[1] <= 127
    case 3 => a[0] == 127
    case 4 => a[0] == 169 && a[1] == 254
    case 5 => a[0] == 172 && 16 <= a[1] <= 31
    case 6 => a[0] == 192 && a[1] == 0 && a[2] == 0
    case 7 => a[0] == 192 && a[1] == 0 && a[2] == 2
    case 8 => a[0] == 192 && a[1] == 88 && a[2] == 99
    case 9 => a[0] == 192 && a[1] == 168
    case 10 => a[0] == 198 && 18 <= a[1] <= 19
    case 11 => a[0] == 198 && a[1] == 51 && a[2] == 100
    case 12 => a[0] == 203 && a[1] == 0 && a[2] == 113
    case 13 => 224 <= a[0] <= 239
    case 14 => 240 <= a[0]
  }

  lemma Spans()
    ensures Span(0) == 1 && Span(1) == 2 && Span(2) == 4 && Span(3) == 8 && Span(4) == 16 && Span(5) == 32 && Span(6) == 64 && Span(7) == 128
  {
    assert Span(3) == 8;
    assert Span(5) == 32;
  }

  lemma Default4IsRange(i: nat, a: Bytes)
    requires i < 15 && ValidBytes(a) && |a| == 4
    ensures Contains(DEFAULT_NETS_V4[i], a) <==> Range4(i, a)
  {
    Spans();
  }

  predicate Range6(i: nat, a: Bytes)
    requires i < 12 && |a| == 16
  {
    match i
    case 0 => AllZero(a, 12)
    case 1 => AllZero(a, 15) && a[15] == 1
    case 2 => a[0] == 0 && a[1] == 0x64 && a[2] == 0xff && a[3] == 0x9b && a[4] == 0 && a[5] == 1
    case 3 => a[0] == 1 && AllZero(a[1..], 7)
    case 4 => a[0] == 0x20 && a[1] == 1 && a[2] <= 1
    case 5 => a[0] == 0x20 && a[1] == 1 && a[2] == 0x0d && a[3] == 0xb8
    case 6 => a[0] == 0x20 && a[1] == 2
    case 7 => a[0] == 0x3f && a[1] == 0xff && a[2] <= 0x0f
    case 8 => 0xfc <= a[0] <= 0xfd
    case 9 => a[0] == 0xfe && 0x80 <= a[1] <= 0xbf
    case 10 => a[0] == 0xfe && 0xc0 <= a[1]
    case 11 => a[0] == 0xff
  }

  lemma Default6LowIsRange(i: nat, a: Bytes)
    requires i < 4 && ValidBytes(a) && |a| == 16
    ensures Contains(DEFAULT_NETS_V6[i], a) <==> Range6(i, a)
  {
  }

  lemma Default6MiddleIsRange(i: nat, a: Bytes)
    requires 4 <= i < 8 && ValidBytes(a) && |a| == 16
    ensures Contains(DEFAULT_NETS_V6[i], a) <==> Range6(i, a)
  {
    Spans();
  }

  lemma Default6HighIsRange(i: nat, a: Bytes)
    requires 8 <= i < 12 && ValidBytes(a) && |a| == 16
    ensures Contains(DEFAULT_NETS_V6[i], a) <==> Range6(i, a)
  {
    Spans();
  }

  /** The default list, network by network, as one condition on the bytes of an address. */
  lemma DefaultIsUnion(a: Bytes)
    requires ValidBytes(a)
    ensures InAny(DEFAULT_NETS, a) <==> InDefault(a)
  {
    if |a| == 4 {
      forall i: nat | i < 15
        ensures Contains(DEFAULT_NETS[i], a) <==> Range4(i, a)
      {
        Default4IsRange(i, a);
      }
      assert InAny(DEFAULT_NETS, a) <==> exists i: nat :: i < 15 && Range4(i, a);
      AnyRange4(a);
    } else {
      forall i: nat | i < 12
        ensures Contains(DEFAULT_NETS[15 + i], a) <==> Range6(i, a)
      {
        assert DEFAULT_NETS[15 + i] == DEFAULT_NETS_V6[i];
        if i < 4 {
          Default6LowIsRange(i, a);
        } else if i < 8 {
          Default6MiddleIsRange(i, a);
        } else {
          Default6HighIsRange(i, a);
        }
      }
      SixesOnly(a);
      AnyRange6(a);
    }
  }

  lemma SixesOnly(a: Bytes)
    requires |a| == 16
    requires forall i: nat :: i < 12 ==> (Contains(DEFAULT_NETS[15 + i], a) <==> Range6(i, a))
    ensures InAny(DEFAULT_NETS, a) <==> exists i: nat :: i < 12 && Range6(i, a)
  {
    if InAny(DEFAULT_NETS, a) {
      var j :| 0 <= j < |DEFAULT_NETS| && Contains(DEFAULT_NETS[j], a);
      assert j >= 15;
      var i: nat := j - 15;
      assert Contains(DEFAULT_NETS[15 + i], a);
      assert Range6(i, a);
    }
    if i: nat :| i < 12 && Range6(i, a) {
      var j := 15 + i;
      assert j < |DEFAULT_NETS| && Contains(DEFAULT_NETS[j], a);
    }
  }

  lemma AnyRange4(a: Bytes)
    requires |a| == 4 && ValidBytes(a)
    ensures (exists i: nat :: i < 15 && Range4(i, a)) <==> In4(a)
  {
    if In4(a) {
      var i: nat :=
        if a[0] == 0 then 0 else if a[0] == 10 then 1 else if a[0] == 100 then 2 else if a[0] == 127 then 3
        else if a[0] == 169 then 4 else if a[0] == 172 then 5
        else if a[0] == 192 && a[1] == 0 then (if a[2] == 0 then 6 else 7)
        else if a[0] == 192 && a[1] == 88 then 8 else if a[0] == 192 then 9
        else if a[0] == 198 && a[1] <= 19 then 10 else if a[0] == 198 then 11 else if a[0] == 203 then 12
        else if a[0] <= 239 then 13 else 14;
      assert Range4(i, a);
    }
  }

  lemma AnyRange6(a: Bytes)
    requires |a| == 16 && ValidBytes(a)
    ensures (exists i: nat :: i < 12 && Range6(i, a)) <==> In6(a)
  {
    if In6(a) {
      var i: nat :=
        if AllZero(a, 12) then 0 else if a[0] == 0 then 2 else if a[0] == 1 then 3
        else if a[0] == 0x20 && a[1] == 1 then (if a[2] <= 1 then 4 else 5)
        else if a[0] == 0x20 then 6 else if a[0] == 0x3f then 7 else if a[0] <= 0xfd then 8
        else if a[0] == 0xff then 11 else if a[1] <= 0xbf then 9 else 10;
      assert Range6(i, a);
    }
  }

  /** The metadata addresses are in the default networks anyway. */
  lemma MetadataInDefault(a: Bytes)
    requires ValidBytes(a) && a in METADATA_ADDRESSES
    ensures InDefault(a)
  {
  }

  lemma ExpandedValid(a: Bytes)
    requires ValidBytes(a)
    ensures forall k :: 0 <= k < |Expand(a)| ==> ValidBytes(Expand(a)[k])
  {
  }

  lemma InAnyUnion(x: seq<Net>, y: seq<Net>, a: Bytes)
    ensures InAny(x + y, a) <==> InAny(x, a) || InAny(y, a)
  {
    if InAny(x, a) {
      var i :| 0 <= i < |x| && Contains(x[i], a);
      assert Contains((x + y)[i], a);
    }
    if InAny(y, a) {
      var i :| 0 <= i < |y| && Contains(y[i], a);
      assert Contains((x + y)[|x| + i], a);
    }
  }

  /** `IsBlocked` is one declarative union: some unwrapped form of the address is in a default range or
      in a configured network. So configured networks only ever add to what is blocked. */
  lemma BlockedIsUnion(extra: seq<Net>, a: Bytes)
    requires ValidBytes(a)
    ensures Blocked(DEFAULT_NETS + extra, a)
       <==> exists k :: 0 <= k < |Expand(a)| && (InDefault(Expand(a)[k]) || InAny(extra, Expand(a)[k]))
  {
    ExpandedValid(a);
    forall k | 0 <= k < |Expand(a)|
      ensures Expand(a)[k] in METADATA_ADDRESSES || InAny(DEFAULT_NETS + extra, Expand(a)[k])
         <==> InDefault(Expand(a)[k]) || InAny(extra, Expand(a)[k])
    {
      var c := Expand(a)[k];
      DefaultIsUnion(c);
      InAnyUnion(DEFAULT_NETS, extra, c);
      if c in METADATA_ADDRESSES {
        MetadataInDefault(c);
      }
    }
  }

  lemma Monotone(extra: seq<Net>, more: seq<Net>, a: Bytes)
    requires ValidBytes(a) && Blocked(DEFAULT_NETS + extra, a)
    ensures Blocked(DEFAULT_NETS + (extra + more), a)
  {
    BlockedIsUnion(extra, a);
    BlockedIsUnion(extra + more, a);
    var k :| 0 <= k < |Expand(a)| && (InDefault(Expand(a)[k]) || InAny(extra, Expand(a)[k]));
    InAnyUnion(extra, more, Expand(a)[k]);
  }

  // ----- IPv4 addresses inside IPv6 addresses

  function Mapped(e: Bytes): Bytes
    requires |e| == 4
  {
    [0, 0, 0, 0, 0, 0, 0, 0, 0, 0, 255, 255] + e
  }

  function Nat64(e: Bytes): Bytes
    requires |e| == 4
  {
    [0, 0x64, 0xff, 0x9b, 0, 0, 0, 0, 0, 0, 0, 0] + e
  }

  /** An IPv4-mapped address is blocked exactly when its IPv4 address is, whatever is configured; no
      IPv6 network of the list is consulted for it. */
  lemma MappedLikeEmbedded(extra: seq<Net>, e: Bytes)
    requires ValidBytes(e) && |e| == 4
    ensures ValidBytes(Mapped(e)) && (Blocked(DEFAULT_NETS + extra, Mapped(e)) <==> Blocked(DEFAULT_NETS + extra, e))
  {
    var a := Mapped(e);
    assert a[..12] == [0, 0, 0, 0, 0, 0, 0, 0, 0, 0, 255, 255] && a[12..] == e;
    assert Expand(a) == [e] && Expand(e) == [e];
  }

  /** An address of 64:ff9b::/96 is blocked exactly when its IPv4 address is, or a configured network
      contains it. */
  lemma Nat64LikeEmbedded(extra: seq<Net>, e: Bytes)
    requires ValidBytes(e) && |e| == 4
    ensures ValidBytes(Nat64(e))
    ensures Blocked(DEFAULT_NETS + extra, Nat64(e)) <==> Blocked(DEFAULT_NETS + extra, e) || InAny(extra, Nat64(e))
  {
    var a := Nat64(e);
    assert a[..12] == [0, 0x64, 0xff, 0x9b, 0, 0, 0, 0, 0, 0, 0, 0] && a[12..] == e;
    assert !IsMapped(a);
    assert Expand(a) == [a, e] && Expand(e) == [e];
    assert a[0] == 0 && a[1] == 0x64 && a[5] == 0;
    assert !InDefault(a);
    BlockedIsUnion(extra, a);
    BlockedIsUnion(extra, e);
    assert Expand(a)[0] == a && Expand(a)[1] == e && Expand(e)[0] == e;
  }

  /** Every 6to4 address is blocked, whatever it embeds. */
  lemma SixToFourBlocked(extra: seq<Net>, a: Bytes)
    requires ValidBytes(a) && Is6to4(a)
    ensures Blocked(DEFAULT_NETS + extra, a)
  {
    assert a[..12][0] == 0x20;
    assert Expand(a)[0] == a && InDefault(a);
    BlockedIsUnion(extra, a);
  }

  // ----- the web client's tests

  /** Why the web client refuses an address: the block it names in its message. */
  datatype Reason = InBlock(net: Net) | Unspecified | Loopback | Embedded(net: Net)

  /** `ipv4BlockReason`. */
  function WebReason4(o: Bytes): Option<Net>
    requires |o| == 4
  {
    var a, b, c := o[0], o[1], o[2];
    if a == 0 then Some(V4(0, 0, 0, 8))
    else if a == 10 then Some(V4(10, 0, 0, 8))
    else if a == 100 && b >= 64 && b <= 127 then Some(V4(100, 64, 0, 10))
    else if a == 127 then Some(V4(127, 0, 0, 8))
    else if a == 169 && b == 254 then Some(V4(169, 254, 0, 16))
    else if a == 172 && b >= 16 && b <= 31 then Some(V4(172, 16, 0, 12))
    else if a == 192 && b == 168 then Some(V4(192, 168, 0, 16))
    else if a == 192 && b == 0 && c == 0 then Some(V4(192, 0, 0, 24))
    else if a >= 224 && a <= 239 then Some(V4(224, 0, 0, 4))
    else if a >= 240 then Some(V4(240, 0, 0, 4))
    else None
  }

  predicate ZeroUpTo(g: seq<int>, n: nat)
    requires n <= |g|
  {
    forall i :: 0 <= i < n ==> g[i] == 0
  }

  function EmbeddedOctets(g: seq<int>): Bytes
    requires |g| == 8
  {
    [g[6] / 256, g[6] % 256, g[7] / 256, g[7] % 256]
  }

  /** `ipv6BlockReason`. A mask of leading ones keeps the quotient by a power of two. */
  function WebReason6(g: seq<int>): Option<Reason>
    requires |g| == 8
  {
    if ZeroUpTo(g, 8) then Some(Unspecified)
    else if ZeroUpTo(g, 7) && g[7] == 1 then Some(Loopback)
    else if g[0] / 0x40 == 0xfe80 / 0x40 then Some(InBlock(V6(0xfe, 0x80, 0, 0, 10)))
    else if g[0] / 0x200 == 0xfc00 / 0x200 then Some(InBlock(V6(0xfc, 0, 0, 0, 7)))
    else if g[0] / 0x100 == 0xff then Some(InBlock(V6(0xff, 0, 0, 0, 8)))
    else if ZeroUpTo(g, 5) && g[5] == 0xffff && WebReason4(EmbeddedOctets(g)).Some? then
      Some(Embedded(WebReason4(EmbeddedOctets(g)).value))
    else None
  }

  /** The sixteen bytes of eight groups. */
  function ToBytes(g: seq<int>): (a: Bytes)
    requires ValidGroups(g)
    ensures ValidBytes(a) && |a| == 16
    ensures forall i :: 0 <= i < 8 ==> a[2 * i] == g[i] / 256 && a[2 * i + 1] == g[i] % 256
  {
    [g[0] / 256, g[0] % 256, g[1] / 256, g[1] % 256, g[2] / 256, g[2] % 256, g[3] / 256, g[3] % 256,
     g[4] / 256, g[4] % 256, g[5] / 256, g[5] % 256, g[6] / 256, g[6] % 256, g[7] / 256, g[7] % 256]
  }

  /** The ranges of IPv4 addresses that only the server refuses. */
  predicate ServerOnly4(o: Bytes)
    requires |o| == 4
  {
    || (o[0] == 192 && o[1] == 0 && o[2] == 2) || (o[0] == 192 && o[1] == 88 && o[2] == 99)
    || (o[0] == 198 && 18 <= o[1] <= 19) || (o[0] == 198 && o[1] == 51 && o[2] == 100)
    || (o[0] == 203 && o[1] == 0 && o[2] == 113)
  }

  /** Over all 2^32 addresses: the server refuses what the web client refuses, and exactly five
      ranges more. */
  lemma WebIsWeaker4(extra: seq<Net>, o: Bytes)
    requires ValidOctets(o)
    ensures WebReason4(o).Some? ==> Blocked(DEFAULT_NETS + extra, o)
    ensures Blocked(DEFAULT_NETS, o) <==> WebReason4(o).Some? || ServerOnly4(o)
  {
    assert Expand(o) == [o] && Expand(o)[0] == o;
    BlockedIsUnion(extra, o);
    BlockedIsUnion([], o);
    assert DEFAULT_NETS + [] == DEFAULT_NETS;
  }

  /** The block the web client names does contain the address, and the server's list has it too. */
  lemma WebNamesTheBlock4(o: Bytes)
    requires ValidOctets(o) && WebReason4(o).Some?
    ensures WebReason4(o).value in DEFAULT_NETS && Contains(WebReason4(o).value, o)
  {
    var n := WebReason4(o).value;
    var i: nat := if n == DEFAULT_NETS_V4[0] then 0 else if n == DEFAULT_NETS_V4[1] then 1 else if n == DEFAULT_NETS_V4[2] then 2
      else if n == DEFAULT_NETS_V4[3] then 3 else if n == DEFAULT_NETS_V4[4] then 4 else if n == DEFAULT_NETS_V4[5] then 5
      else if n == DEFAULT_NETS_V4[9] then 9 else if n == DEFAULT_NETS_V4[6] then 6 else if n == DEFAULT_NETS_V4[13] then 13 else 14;
    assert n == DEFAULT_NETS_V4[i] == DEFAULT_NETS[i];
    Default4IsRange(i, o);
  }

  /** The IPv6 addresses that only the server refuses, for those that carry no IPv4 address. */
  predicate ServerOnly6(a: Bytes)
    requires |a| == 16
  {
    || (a[0] == 0 && a[1] == 0x64 && a[2] == 0xff && a[3] == 0x9b && a[4] == 0 && a[5] == 1)
    || (a[0] == 1 && AllZero(a[1..], 7))
    || (a[0] == 0x20 && a[1] == 1 && (a[2] <= 1 || (a[2] == 0x0d && a[3] == 0xb8)))
    || (a[0] == 0x20 && a[1] == 2)
    || (a[0] == 0x3f && a[1] == 0xff && a[2] <= 0x0f)
    || (a[0] == 0xfe && 0xc0 <= a[1])
  }

  predicate MappedGroups(g: seq<int>)
    requires |g| == 8
  {
    ZeroUpTo(g, 5) && g[5] == 0xffff
  }

  lemma GroupsAsBytes(g: seq<int>)
    requires ValidGroups(g)
    ensures var a := ToBytes(g);
            && (IsMapped(a) <==> MappedGroups(g))
            && a[12..] == EmbeddedOctets(g)
            && (AllZero(a, 12) <==> ZeroUpTo(g, 6))
  {
    var a := ToBytes(g);
    assert a[..12] == [g[0] / 256, g[0] % 256, g[1] / 256, g[1] % 256, g[2] / 256, g[2] % 256,
                       g[3] / 256, g[3] % 256, g[4] / 256, g[4] % 256, g[5] / 256, g[5] % 256];
    if AllZero(a, 12) {
      forall i | 0 <= i < 6
        ensures g[i] == 0
      {
        assert a[2 * i] == 0 && a[2 * i + 1] == 0;
      }
    }
  }

  /** Addresses without an embedded IPv4 address: every range the server adds, exactly. */
  lemma PlainDifference(g: seq<int>)
    requires ValidGroups(g) && !MappedGroups(g)
    ensures InDefault(ToBytes(g)) <==> WebReason6(g).Some? || ZeroUpTo(g, 6) || ServerOnly6(ToBytes(g))
  {
    GroupsAsBytes(g);
    var a := ToBytes(g);
    assert a[0] == g[0] / 256 && a[1] == g[0] % 256;
  }

  /** The last four bytes of an address written with an IPv4 tail are the octets that are written. */
  lemma TailIsWritten(sp: Spelling)
    requires Legal(sp) && sp.dotted != []
    ensures EmbeddedOctets(Denoted(sp)) == sp.dotted
  {
    DenotedAt(sp, 6);
    DenotedAt(sp, 7);
  }

  /** An IPv4-mapped address as it is usually written, read by the web client: it carries that IPv4 address and
      is refused exactly when that is, for the same reason. */
  lemma MappedText(o: Bytes)
    requires ValidOctets(o)
    ensures var r := ParseV6("::ffff:" + Dotted(o));
            && r.Some? && |r.value| == 8 && MappedGroups(r.value) && EmbeddedOctets(r.value) == o
            && WebReason6(r.value) == if WebReason4(o).Some? then Some(Embedded(WebReason4(o).value)) else None
  {
    var sp := MappedSpelling(o);
    V6Complete(sp);
    TailIsWritten(sp);
    MappedValue(sp);
    CarriedReason(Denoted(sp));
  }

  lemma MappedValue(sp: Spelling)
    requires Legal(sp) && sp.left == [] && sp.gap && sp.right == ["ffff"] && sp.dotted != []
    ensures MappedGroups(Denoted(sp))
  {
    FourFs();
    forall i: nat | i < 6
      ensures Denoted(sp)[i] == if i < 5 then 0 else 0xffff
    {
      DenotedAt(sp, i);
    }
  }

  lemma CarriedReason(g: seq<int>)
    requires |g| == 8 && MappedGroups(g)
    ensures var n := WebReason4(EmbeddedOctets(g));
            WebReason6(g) == if n.Some? then Some(Embedded(n.value)) else None
  {
    assert g[5] == 0xffff && g[0] == 0;
  }

  lemma MappedSpelling(o: Bytes) returns (sp: Spelling)
    requires ValidOctets(o)
    ensures sp == Spelling([], true, ["ffff"], o) && Legal(sp) && Spelled(sp) == "::ffff:" + Dotted(o)
  {
    sp := Spelling([], true, ["ffff"], o);
    assert IsH16("ffff");
    var d := Dotted(o);
    assert ["ffff"] + [d] == ["ffff", d] && ["ffff", d][1..] == [d];
    assert Join(["ffff", d], ":") == "ffff" + ":" + d;
    assert "" + "::" + ("ffff" + ":" + d) == "::ffff:" + d;
  }

  lemma FourFs()
    ensures HexValue("ffff") == 0xffff
  {
    HexSnoc("", 15);
    HexSnoc("f", 15);
    HexSnoc("ff", 15);
    HexSnoc("fff", 15);
    assert HexChar(15) == 'f';
    assert "" + ['f'] == "f" && "f" + ['f'] == "ff" && "ff" + ['f'] == "fff" && "fff" + ['f'] == "ffff";
  }

  /** What the other reasons mean: the block named is on the server's list and contains the address. */
  lemma WebNamesTheBlock6(g: seq<int>)
    requires ValidGroups(g) && WebReason6(g).Some?
    ensures match WebReason6(g).value
            case InBlock(n) => n in DEFAULT_NETS && Contains(n, ToBytes(g))
            case Unspecified => forall i :: 0 <= i < 16 ==> ToBytes(g)[i] == 0
            case Loopback => Contains(LOOPBACK_V6, ToBytes(g))
            case Embedded(n) => MappedGroups(g) && WebReason4(EmbeddedOctets(g)) == Some(n)
  {
    if WebReason6(g).value.InBlock? {
      NamedBlock6(g);
    } else if WebReason6(g).value.Loopback? {
      OnlyLoopback(g);
    }
  }

  lemma NamedBlock6(g: seq<int>)
    requires ValidGroups(g) && WebReason6(g).Some? && WebReason6(g).value.InBlock?
    ensures var n := WebReason6(g).value.net; n in DEFAULT_NETS && Contains(n, ToBytes(g))
  {
    var n := WebReason6(g).value.net;
    var i: nat := if n == DEFAULT_NETS_V6[9] then 9 else if n == DEFAULT_NETS_V6[8] then 8 else 11;
    assert n == DEFAULT_NETS_V6[i] == DEFAULT_NETS[15 + i];
    Default6HighIsRange(i, ToBytes(g));
  }

  lemma OnlyLoopback(g: seq<int>)
    requires ValidGroups(g) && ZeroUpTo(g, 7) && g[7] == 1
    ensures Contains(LOOPBACK_V6, ToBytes(g))
  {
    Default6LowIsRange(1, ToBytes(g));
  }

  /** Over all 2^128 addresses: what the web client refuses, the server refuses, with any configured
      networks. */
  lemma WebIsWeaker6(extra: seq<Net>, g: seq<int>)
    requires ValidGroups(g) && WebReason6(g).Some?
    ensures Blocked(DEFAULT_NETS + extra, ToBytes(g))
  {
    if MappedGroups(g) {
      MappedIsWeaker(extra, g);
    } else {
      GroupsAsBytes(g);
      PlainDifference(g);
      BlockedIsUnion(extra, ToBytes(g));
      assert Expand(ToBytes(g))[0] == ToBytes(g);
    }
  }

  lemma MappedIsWeaker(extra: seq<Net>, g: seq<int>)
    requires ValidGroups(g) && MappedGroups(g) && WebReason6(g).Some?
    ensures Blocked(DEFAULT_NETS + extra, ToBytes(g))
  {
    var a := ToBytes(g);
    GroupsAsBytes(g);
    assert a == Mapped(EmbeddedOctets(g)) by {
      assert a == a[..12] + a[12..];
    }
    WebIsWeaker4(extra, EmbeddedOctets(g));
    MappedLikeEmbedded(extra, EmbeddedOctets(g));
  }

  /** And exactly what the server's default list refuses beyond that. */
  lemma ServerDifference6(g: seq<int>)
    requires ValidGroups(g)
    ensures var a := ToBytes(g);
            Blocked(DEFAULT_NETS, a) <==>
              if MappedGroups(g) then WebReason4(EmbeddedOctets(g)).Some? || ServerOnly4(EmbeddedOctets(g))
              else WebReason6(g).Some? || ZeroUpTo(g, 6) || ServerOnly6(a) || (IsNat64(a) && Blocked(DEFAULT_NETS, a[12..]))
  {
    var a := ToBytes(g);
    GroupsAsBytes(g);
    assert DEFAULT_NETS + [] == DEFAULT_NETS;
    if MappedGroups(g) {
      assert a == a[..12] + a[12..];
      MappedLikeEmbedded([], a[12..]);
      WebIsWeaker4([], a[12..]);
    } else {
      PlainDifference(g);
      if IsNat64(a) {
        assert a == a[..12] + a[12..];
        Nat64LikeEmbedded([], a[12..]);
        assert a[0] == a[..12][0] && a[1] == a[..12][1] && a[5] == a[..12][5];
      } else {
        BlockedIsUnion([], a);
        assert Expand(a)[0] == a;
      }
    }
  }

  // ----- bit by bit

  /** Bit `k` of an address, the highest of its first byte being bit 0. */
  function Bit(a: Bytes, k: nat): int
    requires k < 8 * |a|
  {
    var b := a[k / 8];
    match k % 8
    case 0 => b / 128 % 2
    case 1 => b / 64 % 2
    case 2 => b / 32 % 2
    case 3 => b / 16 % 2
    case 4 => b / 8 % 2
    case 5 => b / 4 % 2
    case 6 => b / 2 % 2
    case _ => b % 2
  }

  lemma BitIsQuotient(a: Bytes, k: nat)
    requires k < 8 * |a|
    ensures Bit(a, k) == a[k / 8] / Span(7 - k % 8) % 2
  {
    Spans();
  }

  lemma HalfAgain(x: int, r: nat)
    requires 0 <= x && r < 8
    ensures x / Span(7 - r) == 2 * (x / Span(8 - r)) + x / Span(7 - r) % 2
  {
    Spans();
    assert Span(8) == 256;
    if r < 4 {
      HighHalves(x);
    } else {
      LowHalves(x);
    }
  }

  lemma HighHalves(x: int)
    ensures x / 128 == 2 * (x / 256) + x / 128 % 2 && x / 64 == 2 * (x / 128) + x / 64 % 2
    ensures x / 32 == 2 * (x / 64) + x / 32 % 2 && x / 16 == 2 * (x / 32) + x / 16 % 2
  {
    assert x / 256 == x / 128 / 2;
    assert x / 128 == x / 64 / 2;
    assert x / 64 == x / 32 / 2;
    assert x / 32 == x / 16 / 2;
  }

  lemma LowHalves(x: int)
    ensures x / 8 == 2 * (x / 16) + x / 8 % 2 && x / 4 == 2 * (x / 8) + x / 4 % 2
    ensures x / 2 == 2 * (x / 4) + x / 2 % 2 && x / 1 == 2 * (x / 2) + x / 1 % 2
  {
    assert x / 16 == x / 8 / 2;
    assert x / 8 == x / 4 / 2;
    assert x / 4 == x / 2 / 2;
  }

  /** One more bit of a byte. */
  lemma OneMoreBit(x: int, y: int, r: nat)
    requires 0 <= x && 0 <= y && r < 8
    ensures x / Span(7 - r) == y / Span(7 - r) <==> x / Span(8 - r) == y / Span(8 - r) && x / Span(7 - r) % 2 == y / Span(7 - r) % 2
  {
    HalfAgain(x, r);
    HalfAgain(y, r);
  }

  lemma SameBitsOneMore(a: Bytes, b: Bytes, bits: nat)
    requires ValidBytes(a) && ValidBytes(b) && |a| == |b| && bits < 8 * |a|
    ensures SamePrefix(a, b, bits + 1) <==> SamePrefix(a, b, bits) && Bit(a, bits) == Bit(b, bits)
  {
    var i, r := bits / 8, bits % 8;
    BitIsQuotient(a, bits);
    BitIsQuotient(b, bits);
    OneMoreBit(a[i], b[i], r);
    assert Span(0) == 1 && Span(8) == 256 by {
      Spans();
    }
    assert bits == 8 * i + r;
    if r == 7 {
      assert (bits + 1) / 8 == i + 1 && (bits + 1) % 8 == 0;
    } else {
      assert (bits + 1) / 8 == i && (bits + 1) % 8 == r + 1;
    }
  }

  lemma {:induction false} SamePrefixIsSameBits(a: Bytes, b: Bytes, bits: nat)
    requires ValidBytes(a) && ValidBytes(b) && |a| == |b| && bits <= 8 * |a|
    ensures SamePrefix(a, b, bits) <==> forall k: nat :: k < bits ==> Bit(a, k) == Bit(b, k)
  {
    if bits > 0 {
      SamePrefixIsSameBits(a, b, bits - 1);
      SameBitsOneMore(a, b, bits - 1);
    }
  }

  /** A network contains exactly the addresses of its family that have its first bits. */
  lemma ContainsIsSameBits(n: Net, a: Bytes)
    requires ValidBytes(a) && ValidBytes(n.base)
    ensures Contains(n, a) <==> |a| == |n.base| && n.length <= 8 * |a| && forall k: nat :: k < n.length ==> Bit(a, k) == Bit(n.base, k)
  {
    if |a| == |n.base| && n.length <= 8 * |a| {
      SamePrefixIsSameBits(a, n.base, n.length);
    }
  }

  /** An address that carries no other address is blocked exactly when it is in a default range or a configured
      network. */
  lemma PlainLikeListed(extra: seq<Net>, a: Bytes)
    requires ValidBytes(a) && !IsMapped(a) && !IsNat64(a) && !Is6to4(a)
    ensures Blocked(DEFAULT_NETS + extra, a) <==> InDefault(a) || InAny(extra, a)
  {
    BlockedIsUnion(extra, a);
    assert Expand(a) == [a] && Expand(a)[0] == a;
  }
}
