/**
 * `IpCidr`, a block of either family, with its addresses, its errors, and the dual-family
 * iterator, combiner and separator, each of which hands every call to the family's own.
 */
module IpCidrs {
  import opened Bits
  import opened Digits
  import opened Wrappers
  import opened Cidrs
  import opened Able
  import opened Segments
  import opened Compare
  import opened Cursors
  import AddrIterators
  import opened BlockLists
  import opened Combiners
  import opened CombinerRuns
  import opened Tilings
  import opened Separators

  /** `IpCidr`: `V4(Ipv4Cidr)` or `V6(Ipv6Cidr)`. */
  datatype IpCidr = V4(cidr: Cidr) | V6(cidr: Cidr)

  function FamilyOf(x: IpCidr): Family
  {
    if x.V4? then IPv4 else IPv6
  }

  /** The family that is not `f`. */
  function Other(f: Family): (o: Family)
    ensures o != f
  {
    if f == IPv4 then IPv6 else IPv4
  }

  /** The block of family `f` in its variant. */
  function Lift(f: Family, c: Cidr): (x: IpCidr)
    ensures FamilyOf(x) == f && x.cidr == c
  {
    match f
    case IPv4 => V4(c)
    case IPv6 => V6(c)
  }

  predicate ValidIp(x: IpCidr)
  {
    Cidrs.Valid(Width(FamilyOf(x)), x.cidr)
  }

  /** The standard library's `IpAddr`. */
  datatype IpAddr = Addr4(v4: Ipv4Addr) | Addr6(v6: Ipv6Addr)

  function AddrFamily(a: IpAddr): Family
  {
    if a.Addr4? then IPv4 else IPv6
  }

  predicate ValidAddr(a: IpAddr)
  {
    match a
    case Addr4(b) => Valid4(V4Addr(b))
    case Addr6(b) => Valid6(V6Addr(b))
  }

  /** The number an address stands for: its octets read most significant first. */
  function AddrValue(a: IpAddr): (r: nat)
    requires ValidAddr(a)
    ensures r < Pow2(Width(AddrFamily(a)))
  {
    AddrValueBound(a);
    FromBe(if a.Addr4? then a.v4.octets else a.v6.octets, 8)
  }

  /** The number is what `get_u32` / `get_u128` read from the address. */
  lemma AddrValueIsGet(a: IpAddr)
    requires ValidAddr(a)
    ensures a.Addr4? ==> AddrValue(a) == GetU32(V4Addr(a.v4))
    ensures a.Addr6? ==> AddrValue(a) == Value6(V6Addr(a.v6))
  {
  }

  /** Four octets make a 32-bit number, sixteen a 128-bit one. */
  lemma AddrValueBound(a: IpAddr)
    requires ValidAddr(a)
    ensures FromBe(if a.Addr4? then a.v4.octets else a.v6.octets, 8) < Pow2(Width(AddrFamily(a)))
  {
    if a.Addr4? {
      FromBeBound(a.v4.octets, 8); PowPow2(8, 4);
    } else {
      FromBeBound(a.v6.octets, 8); PowPow2(8, 16);
    }
  }

  /** Address `p` of family `f` as an `IpAddr`, its octets most significant first. */
  function AddrOf(f: Family, p: nat): (a: IpAddr)
    requires p < Pow2(Width(f))
    ensures ValidAddr(a) && AddrFamily(a) == f && AddrValue(a) == p
  {
    if f == IPv4 then
      PowPow2(8, 4);
      FromToBe(p, 4, 8);
      Addr4(Ipv4Addr(ToBe(p, 4, 8)))
    else
      PowPow2(8, 16);
      FromToBe(p, 16, 8);
      Addr6(Ipv6Addr(ToBe(p, 16, 8)))
  }

  /** Distinct addresses of a family make distinct `IpAddr` values. */
  lemma AddrOfInjective(f: Family, p: nat, q: nat)
    requires p < Pow2(Width(f)) && q < Pow2(Width(f)) && AddrOf(f, p) == AddrOf(f, q)
    ensures p == q
  {
    assert AddrValue(AddrOf(f, p)) == AddrValue(AddrOf(f, q));
  }

  //
  // Dispatch on the family: `first_as_ip_addr`, `last_as_ip_addr`, `size`, `contains`.
  //

  /** `first_as_ip_addr`: the family's first address, in the block's own family. */
  function FirstAddr(x: IpCidr): (a: IpAddr)
    requires ValidIp(x)
    ensures ValidAddr(a) && AddrFamily(a) == FamilyOf(x) && AddrValue(a) == First(Width(FamilyOf(x)), x.cidr)
  {
    FirstLastBounds(Width(FamilyOf(x)), x.cidr);
    match x
    case V4(c) => AddrOf(IPv4, First(32, c))
    case V6(c) => AddrOf(IPv6, First(128, c))
  }

  /** `last_as_ip_addr`: the family's last address, in the block's own family. */
  function LastAddr(x: IpCidr): (a: IpAddr)
    requires ValidIp(x)
    ensures ValidAddr(a) && AddrFamily(a) == FamilyOf(x)
    ensures AddrValue(a) == x.cidr.prefix + Size(Width(FamilyOf(x)), x.cidr) - 1
  {
    match x
    case V4(c) => AddrOf(IPv4, Last(32, c))
    case V6(c) => AddrOf(IPv6, Last(128, c))
  }

  /** `size`: the family size as an unbounded number, `2^(w - len)`. */
  function IpSize(x: IpCidr): (r: nat)
    requires ValidIp(x)
    ensures r == Pow2(Width(FamilyOf(x)) - Len(Width(FamilyOf(x)), x.cidr))
    ensures 1 <= r <= Pow2(Width(FamilyOf(x)))
  {
    Size(Width(FamilyOf(x)), x.cidr)
  }

  /** `contains`: never across families; within the family, from the first to the last address. */
  function IpContains(x: IpCidr, a: IpAddr): (r: bool)
    requires ValidIp(x) && ValidAddr(a)
    ensures r <==> AddrFamily(a) == FamilyOf(x) && x.cidr.prefix <= AddrValue(a) <= Last(Width(FamilyOf(x)), x.cidr)
  {
    AddrFamily(a) == FamilyOf(x) && Contains(Width(FamilyOf(x)), x.cidr, AddrValue(a))
  }

  //
  // Equality and order, also against the family types.
  //

  /** `IpCidr == Ipv4Cidr` and `IpCidr == Ipv6Cidr`: the same family and the same block. */
  function EqFamily(x: IpCidr, f: Family, c: Cidr): (r: bool)
    ensures r <==> x == Lift(f, c)
  {
    match x
    case V4(d) => f == IPv4 && d == c
    case V6(d) => f == IPv6 && d == c
  }

  /** `Ipv4Cidr == IpCidr` and `Ipv6Cidr == IpCidr`, matching on the right-hand side. */
  function FamilyEq(f: Family, c: Cidr, x: IpCidr): (r: bool)
    ensures r <==> Lift(f, c) == x
  {
    if f == IPv4 then (match x case V4(d) => c == d case V6(_) => false)
    else (match x case V4(_) => false case V6(d) => c == d)
  }

  /** The two directions of the mixed equality agree. */
  lemma MixedEqSymmetric(x: IpCidr, f: Family, c: Cidr)
    ensures EqFamily(x, f, c) == FamilyEq(f, c, x)
  {
  }

  /**
   * The order `IpCidr` is meant to have (the derived one): every IPv4 block before every
   * IPv6 block, and within a family the block order.
   */
  function IpOrder(x: IpCidr, y: IpCidr): (o: Ordering)
    requires ValidIp(x) && ValidIp(y)
    ensures o == Equal <==> x == y
    ensures o == Less <==> (x.V4? && y.V6?) || (FamilyOf(x) == FamilyOf(y) && Order(Width(FamilyOf(x)), x.cidr, y.cidr) == Less)
  {
    if FamilyOf(x) != FamilyOf(y) then (if x.V4? then Less else Greater)
    else Order(Width(FamilyOf(x)), x.cidr, y.cidr)
  }

  /** That order is antisymmetric and transitive. */
  lemma IpOrderIsTotal(x: IpCidr, y: IpCidr, z: IpCidr)
    requires ValidIp(x) && ValidIp(y) && ValidIp(z)
    ensures IpOrder(y, x) == Flip(IpOrder(x, y))
    ensures IpOrder(x, y) == Less && IpOrder(y, z) == Less ==> IpOrder(x, z) == Less
  {
    if FamilyOf(x) == FamilyOf(y) {
      OrderIsTotal(Width(FamilyOf(x)), x.cidr, y.cidr, y.cidr);
    }
    if FamilyOf(x) == FamilyOf(y) == FamilyOf(z) {
      OrderIsTotal(Width(FamilyOf(x)), x.cidr, y.cidr, z.cidr);
    }
  }

  /** The family's `cmp`: total for IPv4, panicking on equal IPv6 prefixes. */
  method CmpFamily(f: Family, c: Cidr, d: Cidr) returns (r: CmpOutcome)
    requires Cidrs.Valid(Width(f), c) && Cidrs.Valid(Width(f), d)
    ensures r.IndexPanic? <==> f == IPv6 && c.prefix == d.prefix
    ensures r.Done? ==> r.order == Order(Width(f), c, d)
  {
    if f == IPv4 {
      var o := CmpV4(c, d);
      r := Done(o);
    } else {
      r := CmpV6(c, d);
    }
  }

  /**
   * The derived `Ord::cmp` of `IpCidr`: the variants first, then the family's `cmp`, so two
   * IPv6 blocks with the same prefix panic here too.
   */
  method CmpIp(x: IpCidr, y: IpCidr) returns (r: CmpOutcome)
    requires ValidIp(x) && ValidIp(y)
    ensures r.IndexPanic? <==> x.V6? && y.V6? && x.cidr.prefix == y.cidr.prefix
    ensures r.Done? ==> r.order == IpOrder(x, y)
  {
    if FamilyOf(x) == FamilyOf(y) {
      r := CmpFamily(FamilyOf(x), x.cidr, y.cidr);
    } else if x.V4? {
      r := Done(Less);
    } else {
      r := Done(Greater);
    }
  }

  /** `IpCidr.partial_cmp(Ipv4Cidr)` and `IpCidr.partial_cmp(Ipv6Cidr)`. */
  method CmpIpWith(x: IpCidr, f: Family, c: Cidr) returns (r: CmpOutcome)
    requires ValidIp(x) && Cidrs.Valid(Width(f), c)
    ensures r.IndexPanic? <==> x.V6? && f == IPv6 && x.cidr.prefix == c.prefix
    ensures r.Done? ==> r.order == IpOrder(x, Lift(f, c))
  {
    if FamilyOf(x) == f {
      r := CmpFamily(f, x.cidr, c);
    } else if x.V6? {
      r := Done(Greater);
    } else {
      r := Done(Less);
    }
  }

  /** `Ipv4Cidr.partial_cmp(IpCidr)` and `Ipv6Cidr.partial_cmp(IpCidr)`. */
  method CmpWithIp(f: Family, c: Cidr, x: IpCidr) returns (r: CmpOutcome)
    requires Cidrs.Valid(Width(f), c) && ValidIp(x)
    ensures r.IndexPanic? <==> f == IPv6 && x.V6? && c.prefix == x.cidr.prefix
    ensures r.Done? ==> r.order == IpOrder(Lift(f, c), x)
  {
    if FamilyOf(x) == f {
      r := CmpFamily(f, c, x.cidr);
    } else if x.V6? {
      r := Done(Less);
    } else {
      r := Done(Greater);
    }
  }

  //
  // Errors and `from_str`.
  //

  /** `IpCidrError`, in the order of its variants. */
  datatype IpCidrError = IpIncorrectBitsRange | IpIncorrectMask | IncorrectIpCidrString

  datatype IpResult = IpOk(value: IpCidr) | IpErr(error: IpCidrError)

  /** The variant index `Ordinalize` gives a family error. */
  function Ordinal(e: CidrError): (k: nat)
    ensures k < 3
  {
    match e
    case IncorrectBitsRange => 0
    case IncorrectMask => 1
    case IncorrectCidrString => 2
  }

  /** `from_ordinal_unsafe`: the variant with that index. */
  function FromOrdinal(k: nat): (e: IpCidrError)
    requires k < 3
  {
    if k == 0 then IpIncorrectBitsRange else if k == 1 then IpIncorrectMask else IncorrectIpCidrString
  }

  /**
   * `From<Ipv4CidrError>` and `From<Ipv6CidrError>` (the two family error types have the
   * same three variants in the same order): by ordinal, so variant for variant.
   */
  function FromFamilyError(e: CidrError): (r: IpCidrError)
    ensures r == IpIncorrectBitsRange <==> e == IncorrectBitsRange
    ensures r == IpIncorrectMask <==> e == IncorrectMask
    ensures r == IncorrectIpCidrString <==> e == IncorrectCidrString
  {
    FromOrdinal(Ordinal(e))
  }

  /** The ordinal mapping is a bijection between the three family errors and the three `IpCidr` errors. */
  lemma FromFamilyErrorBijective(e: CidrError, e': CidrError, r: IpCidrError)
    ensures FromFamilyError(e) == FromFamilyError(e') ==> e == e'
    ensures exists d :: FromFamilyError(d) == r
  {
    match r
    case IpIncorrectBitsRange => assert FromFamilyError(IncorrectBitsRange) == r;
    case IpIncorrectMask => assert FromFamilyError(IncorrectMask) == r;
    case IncorrectIpCidrString => assert FromFamilyError(IncorrectCidrString) == r;
  }

  /**
   * `IpCidr::from_str`, given what the two family parsers make of the same text: only the
   * IPv4 string error falls through to the IPv6 attempt; the IPv4 range and mask errors are
   * returned at once. Each error it returns is the ordinal mapping of the family error.
   */
  function FromStr(v4: Cidrs.Result<Cidr>, v6: Cidrs.Result<Cidr>): (r: IpResult)
    ensures r.IpOk? <==> v4.Ok? || (v4.error == IncorrectCidrString && v6.Ok?)
    ensures v4.Ok? ==> r == IpOk(V4(v4.value))
    ensures v4.Err? && v4.error != IncorrectCidrString ==> r == IpErr(FromFamilyError(v4.error))
    ensures v4.Err? && v4.error == IncorrectCidrString ==> r == if v6.Ok? then IpOk(V6(v6.value)) else IpErr(FromFamilyError(v6.error))
  {
    match v4
    case Ok(c) => IpOk(V4(c))
    case Err(IncorrectBitsRange) => IpErr(IpIncorrectBitsRange)
    case Err(IncorrectMask) => IpErr(IpIncorrectMask)
    case Err(IncorrectCidrString) =>
      match v6
      case Ok(c) => IpOk(V6(c))
      case Err(IncorrectBitsRange) => IpErr(IpIncorrectBitsRange)
      case Err(IncorrectMask) => IpErr(IpIncorrectMask)
      case Err(IncorrectCidrString) => IpErr(IncorrectIpCidrString)
  }

  //
  // `IpCidrIpAddrIterator`.
  //

  /** An item of `iter_as_ipv4_addr` / `iter_as_ipv6_addr`, wrapped as `IpAddr::V4` / `IpAddr::V6`. */
  function Wrap(it: AddrIterators.Item): (a: IpAddr)
    requires it.V4? || it.V6?
  {
    if it.V4? then Addr4(it.addr4) else Addr6(it.addr6)
  }

  /** Wrapping a family address item gives that address as an `IpAddr`. */
  lemma WrapEncode(f: Family, p: nat)
    requires p < Pow2(Width(f))
    ensures AddrIterators.Encode(f, AddrIterators.AsAddr, p).V4? || AddrIterators.Encode(f, AddrIterators.AsAddr, p).V6?
    ensures Wrap(AddrIterators.Encode(f, AddrIterators.AsAddr, p)) == AddrOf(f, p)
  {
    AddrIterators.EncodingShapes(f, p);
  }

  /** Items that are addresses, as the `*_addr` iterators produce. */
  predicate AllAddr(s: seq<AddrIterators.Item>)
  {
    forall i :: 0 <= i < |s| ==> s[i].V4? || s[i].V6?
  }

  /** `.map(IpAddr::V4)` / `.map(IpAddr::V6)` over a run of items. */
  function WrapItems(s: seq<AddrIterators.Item>): (t: seq<IpAddr>)
    requires AllAddr(s)
    ensures |t| == |s| && forall i :: 0 <= i < |s| ==> t[i] == Wrap(s[i])
  {
    seq(|s|, i requires 0 <= i < |s| => Wrap(s[i]))
  }

  /** Wrapping commutes with taking a slice. */
  lemma WrapSlice(s: seq<AddrIterators.Item>, a: nat, b: nat)
    requires AllAddr(s) && a <= b <= |s|
    ensures AllAddr(s[a..b]) && WrapItems(s[a..b]) == WrapItems(s)[a..b]
  {
    assert AllAddr(s[a..b]);
    assert WrapItems(s[a..b]) == WrapItems(s)[a..b];
  }

  /** Wrapping commutes with taking a prefix. */
  lemma WrapPrefix(s: seq<AddrIterators.Item>, b: nat)
    requires AllAddr(s) && b <= |s|
    ensures AllAddr(s[..b]) && WrapItems(s[..b]) == WrapItems(s)[..b]
  {
    WrapSlice(s, 0, b);
    assert s[..b] == s[0..b];
  }

  class IpAddrIterator {
    const family: Family
    const inner: AddrIterators.AddrIterator

    ghost predicate Valid()
      reads this, inner, inner.inner
    {
      inner.Valid() && inner.encoding == AddrIterators.AsAddr && inner.inner.family == family
    }

    /** The inner iterator yields addresses only. */
    lemma InnerAllAddr()
      requires Valid()
      ensures AllAddr(inner.Items())
    {
      InnerAddrs();
    }

    /** The inner iterator yields addresses only, the `i`-th of them the `i`-th remaining one. */
    lemma InnerAddrs()
      requires Valid()
      ensures AllAddr(inner.Items())
      ensures forall i :: 0 <= i < |inner.Items()| ==> inner.inner.Remaining()[i] < Pow2(Width(family))
      ensures forall i :: 0 <= i < |inner.Items()| ==> Wrap(inner.Items()[i]) == AddrOf(family, inner.inner.Remaining()[i])
    {
      inner.inner.RemainingFits();
      LimitIsPow2(family);
      forall i | 0 <= i < |inner.Items()|
        ensures (inner.Items()[i].V4? || inner.Items()[i].V6?)
        ensures Wrap(inner.Items()[i]) == AddrOf(family, inner.inner.Remaining()[i])
      {
        WrapEncode(family, inner.inner.Remaining()[i]);
      }
    }

    /** The addresses still to come, wrapped, in order. */
    ghost function Items(): (s: seq<IpAddr>)
      requires Valid()
      reads this, inner, inner.inner
      ensures |s| == |inner.Items()|
    {
      InnerAllAddr();
      WrapItems(inner.Items())
    }

    /** The items are the block's remaining addresses, each an `IpAddr` of the iterator's family. */
    lemma ItemsAreAddresses()
      requires Valid()
      ensures |Items()| == |inner.inner.Remaining()|
      ensures forall i :: 0 <= i < |Items()| ==> inner.inner.Remaining()[i] < Pow2(Width(family))
      ensures forall i :: 0 <= i < |Items()| ==> Items()[i] == AddrOf(family, inner.inner.Remaining()[i])
      ensures forall i :: 0 <= i < |Items()| ==> AddrFamily(Items()[i]) == family
    {
      InnerAddrs();
    }

    /** `iter_as_ip_addr`: the family iterator over the block's addresses. */
    constructor (x: IpCidr)
      requires ValidIp(x)
      ensures Valid() && family == FamilyOf(x) && fresh(inner) && fresh(inner.inner)
      ensures inner.inner.Remaining() == Range(x.cidr.prefix, IpSize(x))
    {
      family := FamilyOf(x);
      inner := new AddrIterators.AddrIterator(FamilyOf(x), AddrIterators.AsAddr, x.cidr);
    }

    method Next() returns (r: Option<IpAddr>)
      requires Valid()
      modifies inner.inner
      ensures Valid()
      ensures r == if old(Items()) == [] then None else Some(old(Items())[0])
      ensures Items() == if old(Items()) == [] then [] else old(Items())[1..]
    {
      ghost var before := inner.Items();
      InnerAllAddr();
      var it := inner.Next();
      r := if it.Some? then Some(Wrap(it.value)) else None;
      if before != [] {
        WrapSlice(before, 1, |before|);
      }
    }

    method NextBack() returns (r: Option<IpAddr>)
      requires Valid()
      modifies inner.inner
      ensures Valid()
      ensures r == if old(Items()) == [] then None else Some(old(Items())[|old(Items())| - 1])
      ensures Items() == if old(Items()) == [] then [] else old(Items())[..|old(Items())| - 1]
    {
      ghost var before := inner.Items();
      InnerAllAddr();
      var it := inner.NextBack();
      r := if it.Some? then Some(Wrap(it.value)) else None;
      if before != [] {
        WrapSlice(before, 0, |before| - 1);
      }
    }

    /** `nth(n)`; on IPv4 this is `nth_u64`, which panics when `next + n` leaves `u64`. */
    method Nth(n: nat) returns (r: Option<IpAddr>, panicked: bool)
      requires Valid() && n < U64_LIMIT
      modifies inner.inner
      ensures Valid()
      ensures panicked <==> family == IPv4 && old(inner.inner.next) + n >= U64_LIMIT
      ensures !panicked ==> (r.Some? <==> n < |old(Items())|)
      ensures r.Some? ==> n < |old(Items())| && r.value == old(Items())[n] && Items() == old(Items())[n + 1..]
      ensures !panicked && r.None? ==> Items() == []
    {
      ghost var before := inner.Items();
      InnerAllAddr();
      var it := inner.Nth(n);
      match it
      case Produced(item) =>
        r, panicked := Some(Wrap(item)), false;
        WrapSlice(before, n + 1, |before|);
      case Finished =>
        r, panicked := None, false;
      case Panicked =>
        r, panicked := None, true;
    }

    method NthBack(n: nat) returns (r: Option<IpAddr>)
      requires Valid()
      modifies inner.inner
      ensures Valid()
      ensures r.Some? <==> n < |old(Items())|
      ensures r.Some? ==> r.value == old(Items())[|old(Items())| - 1 - n]
      ensures r.Some? ==> Items() == old(Items())[..|old(Items())| - 1 - n]
      ensures r.None? ==> Items() == []
    {
      ghost var before := inner.Items();
      InnerAllAddr();
      var it := inner.NthBack(n);
      if it.Some? {
        r := Some(Wrap(it.value));
        WrapPrefix(before, |before| - 1 - n);
      } else {
        r := None;
      }
    }

    method Last() returns (r: Option<IpAddr>)
      requires Valid()
      ensures r == if Items() == [] then None else Some(Items()[|Items()| - 1])
    {
      InnerAllAddr();
      var it := inner.Last();
      r := if it.Some? then Some(Wrap(it.value)) else None;
    }
  }

  /** `iter`: the same iterator as `iter_as_ip_addr`. */
  method Iter(x: IpCidr) returns (it: IpAddrIterator)
    requires ValidIp(x)
    ensures fresh(it) && fresh(it.inner) && fresh(it.inner.inner) && it.Valid() && it.family == FamilyOf(x)
    ensures it.inner.inner.Remaining() == Range(x.cidr.prefix, IpSize(x))
  {
    it := new IpAddrIterator(x);
  }

  /** An address from the first to the last of the block, as an `IpAddr`, is in the block. */
  lemma AddrInBlock(x: IpCidr, p: nat)
    requires ValidIp(x) && x.cidr.prefix <= p < x.cidr.prefix + IpSize(x)
    ensures p < Pow2(Width(FamilyOf(x))) && IpContains(x, AddrOf(FamilyOf(x), p))
  {
    assert p <= Last(Width(FamilyOf(x)), x.cidr);
  }

  //
  // `IpCidrCombiner`.
  //

  class IpCombiner {
    const ipv4: Combiner
    const ipv6: Combiner

    ghost predicate Valid()
      reads this, ipv4, ipv6
    {
      && ipv4 != ipv6
      && ipv4.family == IPv4 && ipv6.family == IPv6
      && ipv4.generation == ipv6.generation
      && ipv4.Valid() && ipv6.Valid()
    }

    /** The list of a family. */
    function List(f: Family): seq<Cidr>
      reads this, ipv4, ipv6
    {
      if f == IPv4 then ipv4.cidrs else ipv6.cidrs
    }

    /** `new` / `with_capacity`: two empty lists. */
    constructor (g: Generation)
      ensures Valid() && fresh(ipv4) && fresh(ipv6) && ipv4.generation == g
      ensures ipv4.cidrs == [] && ipv6.cidrs == []
    {
      ipv4 := new Combiner(IPv4, g);
      ipv6 := new Combiner(IPv6, g);
    }

    /** `from_cidr_vec_unchecked`: both lists taken as given. */
    constructor FromVecs(g: Generation, v4: seq<Cidr>, v6: seq<Cidr>)
      requires Normal(32, v4) && Normal(128, v6)
      ensures Valid() && fresh(ipv4) && fresh(ipv6) && ipv4.generation == g
      ensures ipv4.cidrs == v4 && ipv6.cidrs == v6
    {
      ipv4 := new Combiner.FromVec(IPv4, g, v4);
      ipv6 := new Combiner.FromVec(IPv6, g, v6);
    }

    /**
     * `push`: an IPv4 block goes to the IPv4 combiner and an IPv6 block to the IPv6 one; the
     * other list does not change. Only the IPv6 side can panic, exactly when its `push`
     * does: with the older comparison, on a listed block of the same prefix.
     */
    method Push(x: IpCidr) returns (panicked: bool)
      requires Valid() && ValidIp(x)
      modifies ipv4, ipv6
      ensures Valid()
      ensures x.V4? ==> !panicked && ipv6.cidrs == old(ipv6.cidrs)
      ensures x.V6? ==> ipv4.cidrs == old(ipv4.cidrs)
      ensures panicked ==> ipv4.cidrs == old(ipv4.cidrs) && ipv6.cidrs == old(ipv6.cidrs)
      ensures panicked ==>
        x.V6? && ipv6.generation != Newest && exists j :: 0 <= j < |old(ipv6.cidrs)| && old(ipv6.cidrs)[j].prefix == x.cidr.prefix
      ensures x.V6? && ipv6.generation != Newest && (exists j :: 0 <= j < |old(ipv6.cidrs)| && old(ipv6.cidrs)[j].prefix == x.cidr.prefix) ==> panicked
      ensures !panicked && (exists j :: 0 <= j < |old(List(FamilyOf(x)))| && Within(Width(FamilyOf(x)), x.cidr, old(List(FamilyOf(x)))[j])) ==>
        List(FamilyOf(x)) == old(List(FamilyOf(x)))
      ensures old(List(FamilyOf(x))) == [] ==> List(FamilyOf(x)) == [x.cidr] && !panicked
      ensures !panicked ==> forall a :: Covers(Width(FamilyOf(x)), List(FamilyOf(x)), a) <==>
        Covers(Width(FamilyOf(x)), old(List(FamilyOf(x))), a) || InBlock(Width(FamilyOf(x)), x.cidr, a)
    {
      match x
      case V4(c) =>
        panicked := ipv4.Push(c);
      case V6(c) =>
        panicked := ipv6.Push(c);
    }

    /** `contains`: only the list of the address's family is scanned. */
    method Contains(a: IpAddr) returns (r: bool)
      requires Valid() && ValidAddr(a)
      ensures r <==> Covers(Width(AddrFamily(a)), List(AddrFamily(a)), AddrValue(a))
    {
      match a
      case Addr4(b) =>
        r := Scan(32, ipv4.cidrs, GetU32(V4Addr(b)));
      case Addr6(b) =>
        r := Scan(128, ipv6.cidrs, Value6(V6Addr(b)));
    }

    /** `ipv4_size`: the IPv4 combiner's size. */
    method Ipv4Size() returns (s: nat)
      requires Valid()
      ensures s == TotalSize(32, ipv4.cidrs) && s <= Pow2(32)
    {
      s := ipv4.Size();
    }

    /** `ipv6_size`: the IPv6 combiner's size. */
    method Ipv6Size() returns (s: nat)
      requires Valid()
      ensures s == TotalSize(128, ipv6.cidrs) && s <= Pow2(128)
    {
      s := ipv6.Size();
    }
  }

  /**
   * In the newest generation an IPv6 push cannot panic, so the block is always added: pushed
   * onto an empty combiner, it becomes the whole IPv6 list.
   */
  method NewestPushV6(c: Cidr) returns (panicked: bool, covered: bool)
    requires Cidrs.Valid(128, c)
    ensures !panicked && covered
  {
    var b := new IpCombiner(Newest);
    panicked := b.Push(V6(c));
    covered := b.ipv6.cidrs == [c];
  }

  //
  // `IpCidrSeparator`.
  //

  /** Every combiner of a division holds a normal list. */
  lemma DividedNormal(w: nat, output: seq<Combiner>, f: Family, g: Generation, lo: nat, size: nat, d: nat, count: nat, k: nat)
    requires Divided(w, output, f, g, lo, size, d, count) && k < |output|
    ensures Normal(w, output[k].cidrs) && output[k].family == f
  {
    if k < count - 1 {
      assert Holds(w, output[k], lo + k * d, lo + (k + 1) * d);
    }
  }

  /** Every list `divide_by` hands over is normal. */
  lemma PartsNormal(f: Family, g: Generation, c: Cidr, n: nat, parts: seq<Combiner>, count: nat)
    requires Valid(Width(f), c) && 1 <= n <= Size(Width(f), c) && DividedBy(f, g, c, n, parts, count)
    ensures forall k :: 0 <= k < |parts| ==> Normal(Width(f), parts[k].cidrs)
  {
    forall k | 0 <= k < |parts|
      ensures Normal(Width(f), parts[k].cidrs)
    {
      var size := Size(Width(f), c);
      DividedNormal(Width(f), parts, f, g, c.prefix, size, Quot(size, n), count, k);
    }
  }

  /** Each family combiner's list moved into a dual combiner, the other family's list empty. */
  method Rewrap(f: Family, g: Generation, parts: seq<Combiner>) returns (out: seq<IpCombiner>)
    requires forall k :: 0 <= k < |parts| ==> Normal(Width(f), parts[k].cidrs)
    ensures |out| == |parts|
    ensures forall k :: 0 <= k < |out| ==> out[k].Valid() && out[k].List(f) == parts[k].cidrs && out[k].List(Other(f)) == []
  {
    out := [];
    var i := 0;
    while i < |parts|
      invariant 0 <= i <= |parts| && |out| == i
      invariant forall k :: 0 <= k < i ==> out[k].Valid() && out[k].List(f) == parts[k].cidrs && out[k].List(Other(f)) == []
    {
      var b := WrapOne(f, g, parts[i].cidrs);
      out := out + [b];
      i := i + 1;
    }
  }

  /** One family list moved into a fresh dual combiner, the other family's list empty. */
  method WrapOne(f: Family, g: Generation, cidrs: seq<Cidr>) returns (b: IpCombiner)
    requires Normal(Width(f), cidrs)
    ensures fresh(b) && b.Valid() && b.List(f) == cidrs && b.List(Other(f)) == []
  {
    if f == IPv4 {
      b := new IpCombiner.FromVecs(g, cidrs, []);
    } else {
      b := new IpCombiner.FromVecs(g, [], cidrs);
    }
  }

  /**
   * `IpCidrSeparator::divide_by`: the family's `divide_by`, each resulting combiner moved
   * into a dual combiner beside an empty list of the other family; `None` passes through.
   */
  method DivideIp(x: IpCidr, n: nat, g: Generation) returns (r: Option<seq<IpCombiner>>, ghost parts: seq<Combiner>)
    requires ValidIp(x) && n < USIZE_LIMIT
    ensures r.None? <==> n == 0 || n > IpSize(x)
    ensures r.Some? ==> 1 <= n <= IpSize(x) && DividedBy(FamilyOf(x), g, x.cidr, n, parts, PartCount(IpSize(x), n))
    ensures r.Some? ==> |r.value| == |parts|
    ensures r.Some? ==> forall k :: 0 <= k < |parts| ==> r.value[k].Valid() && r.value[k].List(FamilyOf(x)) == parts[k].cidrs && r.value[k].List(Other(FamilyOf(x))) == []
  {
    var f := FamilyOf(x);
    var fam := DivideBy(f, g, x.cidr, n);
    if fam.None? {
      return None, [];
    }
    parts := fam.value;
    PartsNormal(f, g, x.cidr, n, parts, PartCount(IpSize(x), n));
    var out := Rewrap(f, g, fam.value);
    r := Some(out);
  }

  datatype IpSubnets = IpRefused | IpBlocks(blocks: seq<IpCidr>) | IpPanicked

  /**
   * `IpCidrSeparator::sub_networks`: the family's `sub_networks`, each block put back in its
   * family's variant, in the same order.
   */
  method SubNetworksIp(x: IpCidr, bits: nat, g: Generation) returns (r: IpSubnets)
    requires ValidIp(x) && bits < 256
    ensures r.IpRefused? <==> bits < Len(Width(FamilyOf(x)), x.cidr)
    ensures r.IpPanicked? <==> Len(Width(FamilyOf(x)), x.cidr) < bits && (64 <= bits - Len(Width(FamilyOf(x)), x.cidr) || Width(FamilyOf(x)) < bits)
    ensures r.IpBlocks? ==> bits <= Width(FamilyOf(x)) && |r.blocks| == |Tiles(Width(FamilyOf(x)), x.cidr, bits)|
    ensures r.IpBlocks? ==> forall k :: 0 <= k < |r.blocks| ==> r.blocks[k] == Lift(FamilyOf(x), Tiles(Width(FamilyOf(x)), x.cidr, bits)[k])
  {
    var f := FamilyOf(x);
    var s := SubNetworks(f, g, x.cidr, bits);
    match s
    case Refused =>
      r := IpRefused;
    case Blocks(b) =>
      r := IpBlocks(seq(|b|, k requires 0 <= k < |b| => Lift(f, b[k])));
    case PowOverflow =>
      r := IpPanicked;
    case ZeroStep =>
      r := IpPanicked;
  }
}
