/**
 * The typed block iterators (`Ipv4CidrIterator`, `Ipv4CidrIpv4AddrIterator`,
 * `Ipv6CidrIterator`, `Ipv6CidrIpv6AddrIterator`, and the byte and segment iterators they
 * wrap): each is an address cursor whose items are re-encoded on the way out.
 */
module AddrIterators {
  import opened Bits
  import opened Digits
  import opened Segments
  import opened Wrappers
  import opened Cidrs
  import opened Able
  import opened Cursors

  /** How a cursor's address is handed out. */
  datatype Encoding =
    | AsOctets    // `[u8; 4]` / `[u8; 16]`: `to_be_bytes`
    | AsSegments  // `[u16; 8]`: `u128_to_u16_array` (IPv6 only)
    | AsNumber    // `u32` / `u128`: `from_be_bytes` of the octets
    | AsAddr      // `Ipv4Addr` from the octets, `Ipv6Addr::new` from the segments

  datatype Item =
    | Octets(bytes: seq<nat>)
    | Segs(segments: seq<nat>)
    | Number(value: nat)
    | V4(addr4: Ipv4Addr)
    | V6(addr6: Ipv6Addr)

  predicate Supported(f: Family, e: Encoding)
  {
    e == AsSegments ==> f == IPv6
  }

  function Bytes(f: Family): nat
  {
    if f == IPv4 then 4 else 16
  }

  /** The octets of an address are exactly enough to hold it. */
  lemma BytesHoldAddress(f: Family)
    ensures Pow(Pow2(8), Bytes(f)) == Pow2(Width(f))
  {
    PowPow2(8, Bytes(f));
  }

  /** The item an iterator with encoding `e` yields for address `p`. */
  function Encode(f: Family, e: Encoding, p: nat): (it: Item)
    requires Supported(f, e)
  {
    match e
    case AsOctets => Octets(ToBe(p, Bytes(f), 8))
    case AsSegments => Segs(ToBe(p, 8, 16))
    case AsNumber => Number(FromBe(ToBe(p, Bytes(f), 8), 8))
    case AsAddr =>
      if f == IPv4 then V4(Ipv4Addr(ToBe(p, 4, 8)))
      else V6(Ipv6Addr(Split(ToBe(p, 8, 16), 8)))
  }

  /** Reading an item back as a number, the way `Ipv4Able` / `Ipv6Able` would. */
  function Decode(it: Item): nat
  {
    match it
    case Octets(b) => FromBe(b, 8)
    case Segs(s) => FromBe(s, 16)
    case Number(v) => v
    case V4(a) => FromBe(a.octets, 8)
    case V6(a) => FromBe(a.octets, 8)
  }

  /** Every encoding hands out the address itself: decoding an item gives it back. */
  lemma DecodeEncode(f: Family, e: Encoding, p: nat)
    requires Supported(f, e) && p < Pow2(Width(f))
    ensures Decode(Encode(f, e, p)) == p
  {
    var n := Bytes(f);
    BytesHoldAddress(f);
    FromToBe(p, n, 8);
    if e == AsSegments {
      Widths();
      FromToBe(p, 8, 16);
    } else if e == AsAddr && f == IPv6 {
      Widths();
      BytesAreSplitSegments(p);
    }
  }

  /** So the typed iterators yield the same address sequence, only re-encoded. */
  lemma EncodeInjective(f: Family, e: Encoding, p: nat, q: nat)
    requires Supported(f, e) && p < Pow2(Width(f)) && q < Pow2(Width(f))
    requires Encode(f, e, p) == Encode(f, e, q)
    ensures p == q
  {
    DecodeEncode(f, e, p);
    DecodeEncode(f, e, q);
  }

  /** An octet item is the address's big-endian bytes, and a number item is the address. */
  lemma EncodingShapes(f: Family, p: nat)
    requires p < Pow2(Width(f))
    ensures Encode(f, AsNumber, p) == Number(p)
    ensures |Encode(f, AsOctets, p).bytes| == Bytes(f) && AreDigits(Encode(f, AsOctets, p).bytes, 8)
    ensures f == IPv6 ==> Encode(f, AsAddr, p) == V6(Ipv6Addr(ToBe(p, 16, 8)))
  {
    BytesHoldAddress(f);
    FromToBe(p, Bytes(f), 8);
    if f == IPv6 {
      Widths();
      BytesAreSplitSegments(p);
    }
  }

  /** A sequence of addresses, each re-encoded. */
  function EncodeAll(f: Family, e: Encoding, s: seq<nat>): (t: seq<Item>)
    requires Supported(f, e)
    ensures |t| == |s| && forall i :: 0 <= i < |s| ==> t[i] == Encode(f, e, s[i])
  {
    seq(|s|, i requires 0 <= i < |s| => Encode(f, e, s[i]))
  }

  /** What `nth` of a typed iterator returns. */
  datatype Produced = Produced(item: Item) | Finished | Panicked

  class AddrIterator {
    const encoding: Encoding
    const inner: Cursor

    ghost predicate Valid()
      reads this, inner
    {
      inner.Valid() && Supported(inner.family, encoding)
    }

    /** The items still to come, in order. */
    ghost function Items(): (s: seq<Item>)
      requires Valid()
      reads this, inner
      ensures |s| == |inner.Remaining()|
    {
      EncodeAll(inner.family, encoding, inner.Remaining())
    }

    /** `iter` / `iter_as_ipv4_addr` / `iter_as_u16_array` / `iter_as_ipv6_addr` and friends. */
    constructor (f: Family, e: Encoding, c: Cidr)
      requires Cidrs.Valid(Width(f), c) && Supported(f, e)
      ensures Valid() && encoding == e && fresh(inner)
      ensures inner.family == f && inner.Remaining() == Range(c.prefix, Size(Width(f), c))
    {
      encoding := e;
      inner := new Cursor(f, c);
    }

    /** The re-encoding step at the end of every item: `to_be_bytes`, `from_be_bytes`, ... */
    method Emit(p: nat) returns (it: Item)
      requires Valid() && p < Limit(inner.family)
      ensures it == Encode(inner.family, encoding, p)
    {
      var f := inner.family;
      match encoding
      case AsOctets =>
        it := Octets(ToBe(p, Bytes(f), 8));
      case AsSegments =>
        Pow2Of128();
        var s := U128ToU16Array(p);
        it := Segs(s);
      case AsNumber =>
        it := Number(FromBe(ToBe(p, Bytes(f), 8), 8));
      case AsAddr =>
        if f == IPv4 {
          it := V4(Ipv4Addr(ToBe(p, 4, 8)));
        } else {
          Pow2Of128();
          var s := U128ToU16Array(p);
          it := V6(Ipv6Addr(Split(s, 8)));
        }
    }

    method Next() returns (r: Option<Item>)
      requires Valid()
      modifies inner
      ensures Valid()
      ensures r == if old(Items()) == [] then None else Some(old(Items())[0])
      ensures Items() == if old(Items()) == [] then [] else old(Items())[1..]
    {
      inner.RemainingFits();
      var p := inner.Next();
      if p.Some? {
        var it := Emit(p.value);
        r := Some(it);
      } else {
        r := None;
      }
    }

    method NextBack() returns (r: Option<Item>)
      requires Valid()
      modifies inner
      ensures Valid()
      ensures r == if old(Items()) == [] then None else Some(old(Items())[|old(Items())| - 1])
      ensures Items() == if old(Items()) == [] then [] else old(Items())[..|old(Items())| - 1]
    {
      inner.RemainingFits();
      var p := inner.NextBack();
      if p.Some? {
        var it := Emit(p.value);
        r := Some(it);
      } else {
        r := None;
      }
    }

    method Nth(n: nat) returns (r: Produced)
      requires Valid() && (inner.family == IPv4 ==> n < U64_LIMIT)
      modifies inner
      ensures Valid()
      ensures r.Panicked? <==> inner.family == IPv4 && old(inner.next) + n >= U64_LIMIT
      ensures r.Produced? <==> !r.Panicked? && n < |old(Items())|
      ensures r.Produced? ==> r.item == old(Items())[n] && Items() == old(Items())[n + 1..]
      ensures r.Finished? ==> Items() == []
    {
      inner.RemainingFits();
      var p := inner.Nth(n);
      match p
      case Yielded(a) =>
        var it := Emit(a);
        r := Produced(it);
      case Ended =>
        r := Finished;
      case CounterOverflow =>
        r := Panicked;
    }

    method NthBack(n: nat) returns (r: Option<Item>)
      requires Valid()
      modifies inner
      ensures Valid()
      ensures r.Some? <==> n < |old(Items())|
      ensures r.Some? ==> r.value == old(Items())[|old(Items())| - 1 - n]
      ensures r.Some? ==> Items() == old(Items())[..|old(Items())| - 1 - n]
      ensures r.None? ==> Items() == []
    {
      inner.RemainingFits();
      var p := inner.NthBack(n);
      if p.Some? {
        var it := Emit(p.value);
        r := Some(it);
      } else {
        r := None;
      }
    }

    method Last() returns (r: Option<Item>)
      requires Valid()
      ensures r == if Items() == [] then None else Some(Items()[|Items()| - 1])
    {
      inner.RemainingFits();
      var p := inner.Last();
      if p.Some? {
        var it := Emit(p.value);
        r := Some(it);
      } else {
        r := None;
      }
    }
  }
}
