/**
 * The values that can be taken as an address (`Ipv4Able::get_u32`, `Ipv6Able::get_u128`):
 * a plain integer, a big-endian byte array, a 16-bit segment array (IPv6 only), a standard
 * library address, or a reference to any of these.
 */
module Able {
  import opened Bits
  import opened Digits
  import opened Segments

  /** The standard library's IPv4 address: four octets, most significant first. */
  datatype Ipv4Addr = Ipv4Addr(octets: seq<nat>)

  /** The standard library's IPv6 address: sixteen octets, most significant first. */
  datatype Ipv6Addr = Ipv6Addr(octets: seq<nat>)

  datatype Ipv4Able =
    | U32(value: nat)
    | U8Array4(bytes: seq<nat>)
    | V4Addr(addr: Ipv4Addr)
    | Ref4(target: Ipv4Able)

  datatype Ipv6Able =
    | U128(value: nat)
    | U8Array16(bytes: seq<nat>)
    | U16Array8(segments: seq<nat>)
    | V6Addr(addr: Ipv6Addr)
    | Ref6(target: Ipv6Able)

  /** Each variant holds a value its Rust type can hold. */
  predicate Valid4(x: Ipv4Able)
  {
    match x
    case U32(v) => v < Pow2(32)
    case U8Array4(b) => |b| == 4 && AreDigits(b, 8)
    case V4Addr(a) => |a.octets| == 4 && AreDigits(a.octets, 8)
    case Ref4(t) => Valid4(t)
  }

  predicate Valid6(x: Ipv6Able)
  {
    match x
    case U128(v) => v < Pow2(128)
    case U8Array16(b) => |b| == 16 && AreDigits(b, 8)
    case U16Array8(s) => |s| == 8 && AreDigits(s, 16)
    case V6Addr(a) => |a.octets| == 16 && AreDigits(a.octets, 8)
    case Ref6(t) => Valid6(t)
  }

  /** `get_u32`: the 32-bit number, read big-endian from byte arrays and addresses. */
  function GetU32(x: Ipv4Able): (r: nat)
    requires Valid4(x)
    ensures r < Pow2(32)
  {
    match x
    case U32(v) => v
    case U8Array4(b) => FromBeBound(b, 8); PowPow2(8, 4); FromBe(b, 8)
    case V4Addr(a) => FromBeBound(a.octets, 8); PowPow2(8, 4); FromBe(a.octets, 8)
    case Ref4(t) => GetU32(t)
  }

  /** `[a, b, c, d].get_u32() == a * 2^24 + b * 2^16 + c * 2^8 + d`. */
  lemma U8ArrayBigEndian(a: nat, b: nat, c: nat, d: nat)
    requires a < 256 && b < 256 && c < 256 && d < 256
    ensures Valid4(U8Array4([a, b, c, d]))
    ensures GetU32(U8Array4([a, b, c, d])) == a * 16777216 + b * 65536 + c * 256 + d
  {
    DigitWidths();
    var s := [a, b, c, d];
    assert s[..3] == [a, b, c] && [a, b, c][..2] == [a, b] && [a, b][..1] == [a];
    assert FromBe([a], 8) == a;
    assert FromBe([a, b], 8) == a * 256 + b;
    assert FromBe([a, b, c], 8) == (a * 256 + b) * 256 + c;
    assert FromBe(s, 8) == ((a * 256 + b) * 256 + c) * 256 + d;
  }

  /** The byte array of a 32-bit number reads back as that number, and conversely. */
  lemma U8ArrayRoundTrip4(v: nat, b: seq<nat>)
    requires v < Pow2(32) && |b| == 4 && AreDigits(b, 8)
    ensures GetU32(U8Array4(ToBe(v, 4, 8))) == v
    ensures ToBe(GetU32(U8Array4(b)), 4, 8) == b
  {
    PowPow2(8, 4);
    FromToBe(v, 4, 8);
    ToFromBe(b, 8);
  }

  /** An `Ipv4Addr` maps to the same number as its octet array. */
  lemma AddrIsOctets4(a: Ipv4Addr)
    requires |a.octets| == 4 && AreDigits(a.octets, 8)
    ensures GetU32(V4Addr(a)) == GetU32(U8Array4(a.octets))
    ensures ToBe(GetU32(V4Addr(a)), 4, 8) == a.octets
  {
    ToFromBe(a.octets, 8);
  }

  /** `k` nested references to `t`. */
  function Refs4(t: Ipv4Able, k: nat): (r: Ipv4Able)
    ensures k > 0 ==> r.Ref4?
  {
    if k == 0 then t else Ref4(Refs4(t, k - 1))
  }

  /** A reference, at any depth, forwards to its referent. */
  lemma {:induction false} RefForwards4(t: Ipv4Able, k: nat)
    requires Valid4(t)
    ensures Valid4(Refs4(t, k)) && GetU32(Refs4(t, k)) == GetU32(t)
  {
    if k > 0 {
      RefForwards4(t, k - 1);
    }
  }

  /** The number an IPv6-able value denotes: what `get_u128` computes. */
  function Value6(x: Ipv6Able): (r: nat)
    requires Valid6(x)
    ensures r < Pow2(128)
  {
    Widths();
    match x
    case U128(v) => v
    case U8Array16(b) => FromBeBound(b, 8); FromBe(b, 8)
    case U16Array8(s) => FromBeBound(s, 16); FromBe(s, 16)
    case V6Addr(a) => FromBeBound(a.octets, 8); FromBe(a.octets, 8)
    case Ref6(t) => Value6(t)
  }

  /** `Ipv6Addr::segments`: its octets paired up into eight 16-bit segments. */
  function AddrSegments(a: Ipv6Addr): (s: seq<nat>)
    requires |a.octets| == 16 && AreDigits(a.octets, 8)
    ensures |s| == 8 && AreDigits(s, 16)
    ensures forall i :: 0 <= i < 8 ==> s[i] == a.octets[2 * i] * 256 + a.octets[2 * i + 1]
  {
    DigitWidths();
    seq(8, i requires 0 <= i < 8 => a.octets[2 * i] * 256 + a.octets[2 * i + 1])
  }

  /** Splitting the segments of an address gives back its octets. */
  lemma SplitAddrSegments(a: Ipv6Addr)
    requires |a.octets| == 16 && AreDigits(a.octets, 8)
    ensures Split(AddrSegments(a), 8) == a.octets
  {
    DigitWidths();
    var s := AddrSegments(a);
    forall k | 0 <= k < 16
      ensures Split(s, 8)[k] == a.octets[k]
    {
      var i := k / 2;
      SplitAt(s, 8, i);
      DivModUnique(s[i], 256, a.octets[2 * i], a.octets[2 * i + 1]);
      assert k == 2 * i || k == 2 * i + 1;
    }
  }

  /** An `Ipv6Addr` equals the big-endian number of its segments, and of its octets. */
  lemma AddrIsSegments6(a: Ipv6Addr)
    requires |a.octets| == 16 && AreDigits(a.octets, 8)
    ensures Value6(V6Addr(a)) == FromBe(AddrSegments(a), 16)
    ensures Value6(V6Addr(a)) == Value6(U16Array8(AddrSegments(a)))
  {
    SplitAddrSegments(a);
    FromBeSplit(AddrSegments(a), 8);
    assert 2 * 8 == 16;
  }

  /**
   * `get_u128`: the 128-bit number; `[u16; 8]` and `Ipv6Addr` go through
   * `u16_array_to_u128`, a reference forwards to its referent.
   */
  method GetU128(x: Ipv6Able) returns (r: nat)
    requires Valid6(x)
    ensures r == Value6(x)
    decreases x
  {
    match x
    case U128(v) =>
      r := v;
    case U8Array16(b) =>
      r := FromBe(b, 8);
    case U16Array8(s) =>
      r := U16ArrayToU128(s);
    case V6Addr(a) =>
      AddrIsSegments6(a);
      r := U16ArrayToU128(AddrSegments(a));
    case Ref6(t) =>
      r := GetU128(t);
  }

  /** The byte array and the segment array of a 128-bit number read back as that number. */
  lemma ArraysRoundTrip6(v: nat)
    requires v < Pow2(128)
    ensures Valid6(U8Array16(ToBe(v, 16, 8))) && Value6(U8Array16(ToBe(v, 16, 8))) == v
    ensures Valid6(U16Array8(ToBe(v, 8, 16))) && Value6(U16Array8(ToBe(v, 8, 16))) == v
  {
    Widths();
    FromToBe(v, 16, 8);
    FromToBe(v, 8, 16);
  }

  function Refs6(t: Ipv6Able, k: nat): (r: Ipv6Able)
    ensures k > 0 ==> r.Ref6?
  {
    if k == 0 then t else Ref6(Refs6(t, k - 1))
  }

  lemma {:induction false} RefForwards6(t: Ipv6Able, k: nat)
    requires Valid6(t)
    ensures Valid6(Refs6(t, k)) && Value6(Refs6(t, k)) == Value6(t)
  {
    if k > 0 {
      RefForwards6(t, k - 1);
    }
  }
}
