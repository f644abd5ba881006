/**
 * The block value type of the module generation (`Ipv4Cidr` / `Ipv6Cidr` with a `prefix`
 * and a `mask` word), for a width `w` of 32 or 128 bits, and the total order its `Ord`
 * implementations are meant to realise.
 */
module Cidrs {
  import opened Bits
  import opened Masks
  import opened Wrappers

  datatype Family = IPv4 | IPv6

  function Width(f: Family): (w: nat)
    ensures w == 32 || w == 128
  {
    if f == IPv4 then 32 else 128
  }

  /** The error variants shared by `Ipv4CidrError` and `Ipv6CidrError`, in declaration order. */
  datatype CidrError = IncorrectBitsRange | IncorrectMask | IncorrectCidrString

  datatype Result<T> = Ok(value: T) | Err(error: CidrError)

  /** A block: its first address and its network mask, both `w`-bit words. */
  datatype Cidr = Cidr(prefix: nat, mask: nat)

  /** What every constructor guarantees: a contiguous mask and no host bits in the prefix. */
  predicate Valid(w: nat, c: Cidr)
  {
    && c.mask < Pow2(w)
    && MaskLength(w, c.mask).Some?
    && c.prefix < Pow2(w)
    && c.prefix % Pow2(w - MaskLength(w, c.mask).value) == 0
  }

  /** `get_bits`: the prefix length, read from the mask; the `unwrap` cannot fail. */
  function Len(w: nat, c: Cidr): (r: nat)
    requires Valid(w, c)
    ensures r <= w && Mask(w, r) == c.mask
  {
    MaskLength(w, c.mask).value
  }

  /** `get_mask`: the mask rebuilt from the length is the stored mask. */
  function NetMask(w: nat, c: Cidr): (m: nat)
    requires Valid(w, c)
    ensures m == c.mask
  {
    Mask(w, Len(w, c))
  }

  /** The canonical block of length `len` starting at an aligned address. */
  function Block(w: nat, p: nat, len: nat): (c: Cidr)
    requires len <= w && p < Pow2(w) && p % Pow2(w - len) == 0
    ensures Valid(w, c) && Len(w, c) == len && c.prefix == p
  {
    MaskRoundTrip(w, len);
    Cidr(p, Mask(w, len))
  }

  /** Clearing the low `k` bits of an address keeps it inside the width and aligned. */
  lemma ClearLow(w: nat, a: nat, k: nat)
    requires a < Pow2(w) && k <= w
    ensures a - a % Pow2(k) < Pow2(w) && (a - a % Pow2(k)) % Pow2(k) == 0
    ensures And(a, HighOnes(w, k), w) == a - a % Pow2(k)
  {
    RoundDown(a, Pow2(k));
    AndHighOnes(a, w, k);
  }

  lemma RoundDown(a: nat, b: nat)
    requires b >= 1
    ensures a % b <= a && (a - a % b) % b == 0
  {
    DivModUnique(a - a % b, b, a / b, 0);
  }

  /**
   * `from_prefix_and_bits`: `IncorrectBitsRange` exactly when `bits` exceeds the width;
   * otherwise the block of that length holding `p`, with host bits cleared.
   */
  function FromPrefixAndBits(w: nat, p: nat, bits: nat): (r: Result<Cidr>)
    requires p < Pow2(w)
    ensures r.Err? <==> bits > w
    ensures r.Err? ==> r.error == IncorrectBitsRange
    ensures r.Ok? ==> Valid(w, r.value) && Len(w, r.value) == bits
    ensures r.Ok? ==> r.value.prefix == p - p % Pow2(w - bits)
  {
    if bits > w then Err(IncorrectBitsRange)
    else
      MaskedBlock(w, p, bits);
      Ok(Cidr(And(p, Mask(w, bits), w), Mask(w, bits)))
  }

  /** `p & mask` with the length-`len` mask is the block of that length holding `p`. */
  lemma MaskedBlock(w: nat, p: nat, len: nat)
    requires p < Pow2(w) && len <= w
    ensures Valid(w, Cidr(And(p, Mask(w, len), w), Mask(w, len)))
    ensures Len(w, Cidr(And(p, Mask(w, len), w), Mask(w, len))) == len
    ensures And(p, Mask(w, len), w) == p - p % Pow2(w - len)
  {
    ClearLow(w, p, w - len);
    MaskRoundTrip(w, len);
  }

  /**
   * `Ipv4Cidr::new` / `Ipv6Cidr::new` of the `cidr` crate, which the newest generation calls:
   * it refuses a length above the width and a prefix with host bits set, and otherwise
   * agrees with `from_prefix_and_bits`.
   */
  function StrictNew(w: nat, p: nat, bits: nat): (r: Option<Cidr>)
    requires p < Pow2(w)
    ensures r.Some? <==> bits <= w && p % Pow2(w - bits) == 0
    ensures r.Some? ==> Valid(w, r.value) && r.value.prefix == p && Len(w, r.value) == bits
    ensures r.Some? ==> FromPrefixAndBits(w, p, bits) == Ok(r.value)
  {
    if bits <= w && p % Pow2(w - bits) == 0 then Some(Block(w, p, bits)) else None
  }

  /**
   * `from_prefix_and_mask`: `IncorrectMask` exactly when the mask is not contiguous;
   * otherwise the block with that mask holding `p`, with host bits cleared.
   */
  function FromPrefixAndMask(w: nat, p: nat, m: nat): (r: Result<Cidr>)
    requires p < Pow2(w) && m < Pow2(w)
    ensures r.Err? <==> !IsContiguous(w, m)
    ensures r.Err? ==> r.error == IncorrectMask
    ensures r.Ok? ==> Valid(w, r.value) && r.value.mask == m
    ensures r.Ok? ==> r.value.prefix == p - p % Pow2(w - Len(w, r.value))
  {
    match MaskLength(w, m)
    case None => Err(IncorrectMask)
    case Some(len) =>
      MaskedBlock(w, p, len);
      Ok(Cidr(And(p, m, w), m))
  }

  /** `size`: the number of addresses, `2^(w - len)`; for IPv4 this is a `u64`. */
  function Size(w: nat, c: Cidr): (r: nat)
    requires Valid(w, c)
    ensures 1 <= r <= Pow2(w)
    ensures c.prefix + r <= Pow2(w)
  {
    var k := w - Len(w, c);
    var b := Pow2(k);
    Pow2Divides(k, w);
    AlignedEnd(c.prefix, b, Pow2(w));
    b
  }

  /** `u128::MAX + 1`. */
  const U128_LIMIT: nat := 0x1_0000_0000_0000_0000_0000_0000_0000_0000

  lemma Pow2Of128()
    ensures Pow2(128) == U128_LIMIT
  {
    Pow2Double(4, 16);
    Pow2Double(8, 256);
    Pow2Double(16, 0x1_0000);
    Pow2Double(32, 0x1_0000_0000);
    Pow2Double(64, 0x1_0000_0000_0000_0000);
  }

  /**
   * `size` of the transmute- and module-generation IPv6 blocks, a `u128` and a flag: the
   * whole space, whose `2^128` addresses a `u128` cannot count, is `(0, true)`.
   */
  function WideSize(c: Cidr): (r: (nat, bool))
    requires Valid(128, c)
    ensures r.1 <==> Len(128, c) == 0
    ensures r.1 ==> r.0 == 0 && Size(128, c) == U128_LIMIT
    ensures !r.1 ==> r.0 == Size(128, c) < U128_LIMIT
  {
    var len := Len(128, c);
    Pow2Of128();
    if len == 0 then (0, true)
    else
      Pow2Mono(128 - len, 128);
      (Pow2(128 - len), false)
  }

  /** An aligned start below an aligned bound leaves room for a whole block. */
  lemma AlignedEnd(p: nat, b: nat, n: nat)
    requires b >= 1 && p % b == 0 && n % b == 0 && p < n
    ensures p + b <= n
  {
    var q, t := p / b, n / b;
    assert p == b * q && n == b * t;
    if q + 1 > t {
      assert t <= q;
      MulMonoLeft(b, t, q);
    } else {
      MulMonoLeft(b, q + 1, t);
    }
  }

  /** `first`: the prefix. */
  function First(w: nat, c: Cidr): (r: nat)
    requires Valid(w, c)
    ensures r < Pow2(w) && r % Size(w, c) == 0
  {
    c.prefix
  }

  /** `last`: `!mask | prefix`, the prefix with every host bit set. */
  function Last(w: nat, c: Cidr): (r: nat)
    requires Valid(w, c)
    ensures r < Pow2(w)
    ensures r == c.prefix + Size(w, c) - 1
  {
    var k := w - Len(w, c);
    assert Not(NetMask(w, c), w) == Pow2(k) - 1;
    OrLowOnes(c.prefix, w, k);
    Or(Not(NetMask(w, c), w), c.prefix, w)
  }

  /** For an aligned `p`, clearing the low bits of `a` gives `p` iff `a` lies in `[p, p + b)`. */
  lemma AlignedRange(a: nat, p: nat, b: nat)
    requires b >= 1 && p % b == 0
    ensures a - a % b == p <==> p <= a < p + b
  {
    if p <= a < p + b {
      DivModUnique(a, b, p / b, a - p);
    }
  }

  /** `contains`: `a & mask == prefix`, which is `first <= a <= last`. */
  function Contains(w: nat, c: Cidr, a: nat): (r: bool)
    requires Valid(w, c) && a < Pow2(w)
    ensures r <==> c.prefix <= a <= Last(w, c)
  {
    var k := w - Len(w, c);
    AndHighOnes(a, w, k);
    AlignedRange(a, c.prefix, Pow2(k));
    And(a, NetMask(w, c), w) == c.prefix
  }

  /** A block holds exactly the addresses from `first` to `last`; it has `size` of them. */
  lemma FirstLastBounds(w: nat, c: Cidr)
    requires Valid(w, c)
    ensures Contains(w, c, First(w, c)) && Contains(w, c, Last(w, c))
    ensures forall a :: 0 <= a < Pow2(w) && Contains(w, c, a) ==> First(w, c) <= a <= Last(w, c)
    ensures Last(w, c) - First(w, c) + 1 == Size(w, c)
  {
  }

  /** A block of length `len - 1` is twice as large as one of length `len`. */
  lemma SizeHalves(w: nat, c: Cidr, d: Cidr)
    requires Valid(w, c) && Valid(w, d) && Len(w, d) + 1 == Len(w, c)
    ensures Size(w, d) == 2 * Size(w, c)
  {
  }

  /** Two valid blocks with the same prefix and length are the same value. */
  lemma Unique(w: nat, c: Cidr, d: Cidr)
    requires Valid(w, c) && Valid(w, d)
    requires c.prefix == d.prefix && Len(w, c) == Len(w, d)
    ensures c == d
  {
  }

  //
  // The order: prefix ascending, then length ascending.
  //

  /** The order every `Ord::cmp` of a block type is meant to compute. */
  function Order(w: nat, c: Cidr, d: Cidr): (o: Ordering)
    requires Valid(w, c) && Valid(w, d)
    ensures o == Equal <==> c == d
    ensures o == Less <==> c.prefix < d.prefix || (c.prefix == d.prefix && Len(w, c) < Len(w, d))
  {
    if c.prefix != d.prefix then CmpNat(c.prefix, d.prefix) else CmpNat(Len(w, c), Len(w, d))
  }

  function Flip(o: Ordering): Ordering
  {
    match o
    case Less => Greater
    case Equal => Equal
    case Greater => Less
  }

  /** The order is antisymmetric and transitive: a total order on valid blocks. */
  lemma OrderIsTotal(w: nat, b: Cidr, c: Cidr, d: Cidr)
    requires Valid(w, b) && Valid(w, c) && Valid(w, d)
    ensures Order(w, c, b) == Flip(Order(w, b, c))
    ensures Order(w, b, c) == Less && Order(w, c, d) == Less ==> Order(w, b, d) == Less
  {
  }

  /** Ordered disjoint blocks: each block ends before the next one starts. */
  lemma DisjointOrdered(w: nat, c: Cidr, d: Cidr)
    requires Valid(w, c) && Valid(w, d) && Last(w, c) < d.prefix
    ensures Order(w, c, d) == Less
    ensures forall a :: 0 <= a < Pow2(w) ==> !(Contains(w, c, a) && Contains(w, d, a))
  {
  }

  /**
   * Two blocks, the first no later in the order, are either disjoint or the first
   * contains the second.
   */
  lemma NestedOrDisjoint(w: nat, c: Cidr, d: Cidr)
    requires Valid(w, c) && Valid(w, d) && c.prefix <= d.prefix
    requires c.prefix == d.prefix ==> Len(w, c) <= Len(w, d)
    ensures Last(w, c) < d.prefix || Last(w, d) <= Last(w, c)
  {
    var sc, sd := Size(w, c), Size(w, d);
    if Len(w, c) <= Len(w, d) {
      Pow2Divides(w - Len(w, d), w - Len(w, c));
      AlignedNest(c.prefix, sc, d.prefix, sd);
    } else {
      Pow2Divides(w - Len(w, c), w - Len(w, d));
      DivisibleMultiple(d.prefix, sc, sd);
      if d.prefix < c.prefix + sc {
        BetweenAligned(c.prefix, d.prefix, sc);
      }
    }
  }

  /** An aligned interval of length `t` dividing `s` cannot straddle the end of `[p, p + s)`. */
  lemma AlignedNest(p: nat, s: nat, q: nat, t: nat)
    requires s >= 1 && t >= 1 && p % s == 0 && q % t == 0 && s % t == 0 && p <= q
    ensures p + s <= q || q + t <= p + s
  {
    if q < p + s && p + s < q + t {
      DivisibleMultiple(p, t, s);
      DivisibleMultiple(s, t, s);
      assert (p + s) % t == 0 by {
        var u, v := p / t, s / t;
        assert p == t * u && s == t * v;
        assert p + s == t * (u + v);
        DivModUnique(p + s, t, u + v, 0);
      }
      BetweenAligned(q, p + s, t);
    }
  }

  /** `Pow2(j)` divides `Pow2(k)` when `j <= k`. */
  lemma Pow2Divides(j: nat, k: nat)
    requires j <= k
    ensures Pow2(k) % Pow2(j) == 0 && Pow2(k) == Pow2(j) * Pow2(k - j)
  {
    Pow2Add(j, k - j);
    DivModUnique(Pow2(k), Pow2(j), Pow2(k - j), 0);
  }

  lemma DivisibleMultiple(p: nat, b: nat, s: nat)
    requires b >= 1 && s >= 1 && p % s == 0 && s % b == 0
    ensures p % b == 0
  {
    var u, v := p / s, s / b;
    assert p == s * u && s == b * v;
    assert p == b * (v * u);
    DivModUnique(p, b, v * u, 0);
  }

  /** No multiple of `s` lies strictly inside `(p, p + s)` when `p` is itself a multiple. */
  lemma BetweenAligned(p: nat, q: nat, s: nat)
    requires s >= 1 && p % s == 0 && q % s == 0 && p <= q < p + s
    ensures p == q
  {
    AlignedRange(q, p, s);
  }
}
