/**
 * The transmute generation's own block code: constructors and `contains` working on the
 * byte-swapped words the blocks store, the `(u128, bool)` counts of its IPv6 iterators and
 * their `subtract`, and its byte and segment iterators, whose counters differ from the other
 * generations' cursors.
 */
module TransmuteCidrs {
  import opened Bits
  import opened Wrappers
  import opened Masks
  import opened Cidrs
  import opened Digits
  import opened Layout
  import opened AddrIterators
  import Cursors

  //
  // Blocks as stored words.
  //

  /** The words a transmute block stores for the block `c`: prefix and mask, both swapped. */
  function Image(n: nat, c: Cidr): (s: Cidr)
    requires c.prefix < Pow2(8 * n) && c.mask < Pow2(8 * n)
    ensures s.prefix < Pow2(8 * n) && s.mask < Pow2(8 * n)
  {
    Cidr(Swap(n, c.prefix), Swap(n, c.mask))
  }

  /** The stored words determine the block: the image of the image is the block itself. */
  lemma ImageInvolution(n: nat, c: Cidr)
    requires c.prefix < Pow2(8 * n) && c.mask < Pow2(8 * n)
    ensures Image(n, Image(n, c)) == c
  {
    SwapInvolution(n, c.prefix);
    SwapInvolution(n, c.mask);
  }

  /** Masking the words is masking the addresses they stand for. */
  lemma StoredPrefix(n: nat, p: nat, m: nat)
    requires p < Pow2(8 * n) && m < Pow2(8 * n)
    ensures And(p, Swap(n, m), 8 * n) == Swap(n, And(Swap(n, p), m, 8 * n))
  {
    SwapAnd(n, Swap(n, p), m);
    SwapInvolution(n, p);
  }

  /**
   * `from_prefix_and_bits` of the transmute generation: refuse a length beyond the width,
   * otherwise build the mask word and clear the host bits of the prefix word. The words are
   * the image of the block the address-level constructor builds from the address the prefix
   * word stands for.
   */
  method FromPrefixAndBitsLe(n: nat, p: nat, bits: nat) returns (r: Result<Cidr>)
    requires 1 <= n && p < Pow2(8 * n)
    ensures r.Err? <==> bits > 8 * n
    ensures r.Err? ==> r.error == IncorrectBitsRange
    ensures r.Ok? ==> FromPrefixAndBits(8 * n, Swap(n, p), bits).Ok?
    ensures r.Ok? ==> r.value == Image(n, FromPrefixAndBits(8 * n, Swap(n, p), bits).value)
  {
    if bits > 8 * n {
      return Err(IncorrectBitsRange);
    }
    var mask, _ := GetMaskLe(n, bits);
    var prefix := And(p, mask, 8 * n);
    r := Ok(Cidr(prefix, mask));
    StoredPrefix(n, p, Mask(8 * n, bits));
  }

  /**
   * `from_prefix_and_mask` of the transmute generation: refuse a mask word that is not the
   * image of a contiguous mask, otherwise clear the host bits of the prefix word.
   */
  method FromPrefixAndMaskLe(n: nat, p: nat, m: nat) returns (r: Result<Cidr>)
    requires 1 <= n && p < Pow2(8 * n) && m < Pow2(8 * n)
    ensures r.Err? <==> FromPrefixAndMask(8 * n, Swap(n, p), Swap(n, m)).Err?
    ensures r.Err? ==> r.error == IncorrectMask
    ensures r.Ok? ==> r.value == Image(n, FromPrefixAndMask(8 * n, Swap(n, p), Swap(n, m)).value)
  {
    var bits := MaskToBitsLe(n, m);
    match bits
    case None =>
      r := Err(IncorrectMask);
    case Some(len) =>
      r := Ok(Cidr(And(p, m, 8 * n), m));
      SwapInvolution(n, m);
      StoredPrefix(n, p, Swap(n, m));
  }

  /**
   * `contains` of the transmute generation: rebuild the mask word from `get_bits` (whose
   * `unwrap` cannot fail on a constructed block) and compare `address & mask` with the
   * prefix word. It agrees with the address-level `contains` on the block the words stand for.
   */
  method ContainsLe(n: nat, c: Cidr, a: nat) returns (r: bool)
    requires 1 <= n && c.prefix < Pow2(8 * n) && c.mask < Pow2(8 * n) && a < Pow2(8 * n)
    requires Cidrs.Valid(8 * n, Image(n, c))
    ensures r == Cidrs.Contains(8 * n, Image(n, c), Swap(n, a))
  {
    var w := 8 * n;
    var bits := MaskToBitsLe(n, c.mask);
    var len := bits.value;
    var mask, _ := GetMaskLe(n, len);
    SwapInvolution(n, c.mask);
    r := And(a, mask, w) == c.prefix;
    SwapAnd(n, a, mask);
    SwapInvolution(n, a);
    SwapInjective(n, And(a, mask, w), Swap(n, c.prefix));
    SwapInvolution(n, c.prefix);
    SwapAnd(n, Swap(n, a), Swap(n, c.mask));
  }

  //
  // Counts.
  //

  /**
   * A `(u128, bool)` count: the `u128` and the flag that stands for `2^128`, the size of the
   * whole IPv6 space, which a `u128` cannot hold.
   */
  datatype Count = Count(low: nat, full: bool)

  /** The number a count stands for: the flag adds `2^128`. */
  function Val(p: Count): nat
  {
    p.low + if p.full then U128_LIMIT else 0
  }

  /** The counts the iterators make: a `u128`, or `(0, true)` for `2^128`. */
  predicate Canonical(p: Count)
  {
    p.low < U128_LIMIT && (p.full ==> p.low == 0)
  }

  /** Distinct canonical counts stand for distinct numbers, so `==` on counts is `==` on numbers. */
  lemma ValInjective(p: Count, q: Count)
    requires Canonical(p) && Canonical(q)
    ensures Val(p) == Val(q) <==> p == q
  {
  }

  /**
   * The size of an IPv6 block as a count: canonical, standing for the block size, and full
   * exactly for the whole space.
   */
  function SizeCount(c: Cidr): (r: Count)
    requires Cidrs.Valid(128, c)
    ensures Canonical(r) && Val(r) == Size(128, c)
    ensures r.full <==> Len(128, c) == 0
  {
    Count(WideSize(c).0, WideSize(c).1)
  }

  /** What `subtract` does: a difference, the `unreachable!()` panic, or a `u128` underflow. */
  datatype Difference = Diff(value: Count) | Unreachable | Underflow

  /**
   * `subtract(a, b)`: a full `a` less `b` is `2^128 - b` (or `(0, true)` when `b` is 0, and
   * 0 when `b` is full too); a full `b` under a partial `a` is `unreachable!()`; otherwise
   * the `u128` difference, which panics when `b` is larger.
   */
  function Subtract(a: Count, b: Count): (r: Difference)
    requires a.low < U128_LIMIT && b.low < U128_LIMIT
    ensures r.Unreachable? <==> !a.full && b.full
    ensures r.Underflow? <==> !a.full && !b.full && a.low < b.low
    ensures r.Diff? ==> Canonical(r.value)
  {
    if a.full then
      if b.full then Diff(Count(0, false))
      else if b.low == 0 then Diff(Count(0, true))
      else Diff(Count((U128_LIMIT - 1) - b.low + 1, false))
    else if b.full then Unreachable
    else if a.low < b.low then Underflow
    else Diff(Count(a.low - b.low, false))
  }

  /** On canonical counts with `b <= a`, `subtract` never panics and is exact. */
  lemma SubtractExact(a: Count, b: Count)
    requires Canonical(a) && Canonical(b) && Val(b) <= Val(a)
    ensures Subtract(a, b).Diff? && Val(Subtract(a, b).value) == Val(a) - Val(b)
  {
  }

  /**
   * `Ipv6CidrU8ArrayIterator` (octets) and `Ipv6CidrU16ArrayIterator` (segments): the first
   * address `rev_from` and counts `next` and `size`.
   */
  class WideIterator {
    const encoding: Encoding
    const from: nat
    const size: Count
    var next: Count

    ghost predicate Valid()
      reads this
    {
      && (encoding == AsOctets || encoding == AsSegments)
      && Canonical(size) && 1 <= Val(size)
      && from + Val(size) <= U128_LIMIT
      && Canonical(next)
      && Val(next) <= Val(size)
    }

    /**
     * `iter_as_u8_array` / `iter_as_u16_array`: from the first address of the block, with
     * `next = (0, false)`; one before the size is the block's last address.
     */
    constructor (c: Cidr, e: Encoding)
      requires Cidrs.Valid(128, c) && (e == AsOctets || e == AsSegments)
      ensures Valid() && encoding == e && next == Count(0, false)
      ensures from == c.prefix && size == SizeCount(c)
      ensures from + Val(size) - 1 == Cidrs.Last(128, c)
    {
      Pow2Of128();
      encoding := e;
      from := c.prefix;
      size := SizeCount(c);
      next := Count(0, false);
    }

    /**
     * `next`: nothing once `next == size`; otherwise the address at offset `next`, and the
     * count moves on, from `u128::MAX` to `(0, true)` rather than wrapping.
     */
    method Next() returns (r: Produced)
      requires Valid()
      modifies this
      ensures Valid() && !r.Panicked?
      ensures Val(old(next)) == Val(size) ==> r == Finished && next == old(next)
      ensures Val(old(next)) < Val(size) ==>
        r == Produced(Encode(IPv6, encoding, from + Val(old(next)))) && Val(next) == Val(old(next)) + 1
    {
      ValInjective(next, size);
      if next == size {
        return Finished;
      }
      r := Produced(Encode(IPv6, encoding, from + Val(next)));
      if next.low == U128_LIMIT - 1 {
        next := Count(0, true);
      } else {
        next := Count(next.low + 1, next.full);
      }
    }

    /**
     * `last`: set `next = (size.0 - 1, size.1)` and take one item. For the whole space,
     * `size == (0, true)` and `size.0 - 1` underflows.
     */
    method Last() returns (r: Produced)
      requires Valid()
      modifies this
      ensures r.Panicked? <==> size.full
      ensures !r.Panicked? ==> r == Produced(Encode(IPv6, encoding, from + Val(size) - 1))
    {
      if size.low == 0 {
        return Panicked;
      }
      next := Count(size.low - 1, size.full);
      r := Next();
    }

    /** `last` as it is meant to be: one before the size count, also for the whole space. */
    method LastChecked() returns (r: Produced)
      requires Valid()
      modifies this
      ensures r == Produced(Encode(IPv6, encoding, from + Val(size) - 1))
    {
      if size.full {
        next := Count(U128_LIMIT - 1, false);
      } else {
        next := Count(size.low - 1, false);
      }
      r := Next();
    }

    /**
     * The common part of both `nth_u128` bodies: a full `n` exhausts; a `size - next` that is
     * full (nothing taken yet from the whole space) adds `n` as it is; otherwise `n` is
     * first clamped to `size - next` and added, with or without the overflow guard.
     */
    method Skip(n: Count, guarded: bool) returns (panicked: bool)
      requires Valid() && n.low < U128_LIMIT
      modifies this
      ensures Valid()
      ensures panicked <==> !guarded && !n.full && size.full && 0 < Val(old(next)) < U128_LIMIT <= Val(old(next)) + n.low
      ensures panicked ==> next == old(next)
      ensures !panicked && Val(old(next)) + Val(n) < Val(size) ==> Val(next) == Val(old(next)) + Val(n)
      ensures !panicked && Val(old(next)) + Val(n) >= Val(size) ==> next == size
    {
      panicked := false;
      if n.full {
        next := size;
        return;
      }
      SubtractExact(size, next);
      var d := Subtract(size, next).value;
      if d.full {
        next := Count(next.low + n.low, next.full);
        return;
      }
      var m := if n.low < d.low then n.low else d.low;
      if guarded {
        if U128_LIMIT - 1 - m < next.low {
          next := size;
        } else {
          next := Count(next.low + m, next.full);
        }
      } else if next.low + m >= U128_LIMIT {
        panicked := true;
      } else {
        next := Count(next.low + m, next.full);
      }
      ValInjective(next, size);
    }

    /**
     * `nth_u128` of the octet iterator: skip `n` items, guarding the addition, then take one.
     * It never panics: past the end it leaves `next == size` and yields nothing.
     */
    method NthOctets(n: Count) returns (r: Produced)
      requires Valid() && encoding == AsOctets && n.low < U128_LIMIT
      modifies this
      ensures Valid() && !r.Panicked?
      ensures Val(old(next)) + Val(n) < Val(size) ==>
        r == Produced(Encode(IPv6, encoding, from + Val(old(next)) + Val(n))) && Val(next) == Val(old(next)) + Val(n) + 1
      ensures Val(old(next)) + Val(n) >= Val(size) ==> r == Finished && next == size
    {
      var panicked := Skip(n, true);
      r := Next();
    }

    /**
     * `nth_u128` of the segment iterator, which lacks the guard: skipping to or past the end
     * of the whole space after an item was taken overflows `next.0 += n`.
     */
    method NthSegments(n: Count) returns (r: Produced)
      requires Valid() && encoding == AsSegments && n.low < U128_LIMIT
      modifies this
      ensures Valid()
      ensures r.Panicked? <==> !n.full && size.full && 0 < Val(old(next)) < U128_LIMIT <= Val(old(next)) + n.low
      ensures !r.Panicked? && Val(old(next)) + Val(n) < Val(size) ==>
        r == Produced(Encode(IPv6, encoding, from + Val(old(next)) + Val(n))) && Val(next) == Val(old(next)) + Val(n) + 1
      ensures !r.Panicked? && Val(old(next)) + Val(n) >= Val(size) ==> r == Finished && next == size
    {
      var panicked := Skip(n, false);
      if panicked {
        return Panicked;
      }
      r := Next();
    }
  }

  /** Every whole-space block (`::/0`) read by `last()` underflows. */
  method LastPanicWitness(c: Cidr) returns (r: Produced)
    requires Cidrs.Valid(128, c) && Len(128, c) == 0
    ensures r.Panicked?
  {
    var it := new WideIterator(c, AsOctets);
    r := it.Last();
  }

  /** A whole-space block by segments: take one address, then skip `u128::MAX` more: the overflow. */
  method NthSegmentsPanicWitness(c: Cidr) returns (r: Produced)
    requires Cidrs.Valid(128, c) && Len(128, c) == 0
    ensures r.Panicked?
  {
    var it := new WideIterator(c, AsSegments);
    var first := it.Next();
    r := it.NthSegments(Count(U128_LIMIT - 1, false));
  }

  /** `u32::MAX + 1`. */
  const U32_LIMIT: nat := 0x1_0000_0000

  /**
   * `Ipv4CidrU8ArrayIterator`: the first address `rev_from` and `u64` counts `next` and
   * `size`, the block size.
   */
  class NarrowIterator {
    const from: nat
    const size: nat
    var next: nat

    ghost predicate Valid()
      reads this
    {
      && 1 <= size
      && from + size <= U32_LIMIT
      && next <= size
    }

    /**
     * `iter_as_u8_array`: from the first address of the block, with `next = 0`; one before
     * the size is the block's last address.
     */
    constructor (c: Cidr)
      requires Cidrs.Valid(32, c)
      ensures Valid() && next == 0
      ensures from == c.prefix && size == Size(32, c)
      ensures from + size - 1 == Cidrs.Last(32, c)
    {
      Cursors.Pow2Of32();
      from := c.prefix;
      size := Size(32, c);
      next := 0;
    }

    /** `next`: nothing once `next == size`, otherwise the octets of `from + next`. */
    method Next() returns (r: Produced)
      requires Valid()
      modifies this
      ensures Valid() && !r.Panicked?
      ensures old(next) == size ==> r == Finished && next == size
      ensures old(next) < size ==> r == Produced(Encode(IPv4, AsOctets, from + old(next))) && next == old(next) + 1
    {
      if next == size {
        return Finished;
      }
      r := Produced(Encode(IPv4, AsOctets, from + next));
      next := next + 1;
    }

    /**
     * `last`: set `next = size - 1` and take one item, so it is the block's last address
     * whatever was taken before (the size is at least 1, so nothing underflows).
     */
    method Last() returns (r: Produced)
      requires Valid()
      modifies this
      ensures r == Produced(Encode(IPv4, AsOctets, from + size - 1))
    {
      next := size - 1;
      r := Next();
    }

    /**
     * `nth_u64`: skip `min(n, size - next)` items, then take one. The clamp keeps
     * `next <= size`, so nothing overflows.
     */
    method NthU64(n: nat) returns (r: Produced)
      requires Valid() && n < Cursors.U64_LIMIT
      modifies this
      ensures Valid() && !r.Panicked?
      ensures old(next) + n < size ==> r == Produced(Encode(IPv4, AsOctets, from + old(next) + n)) && next == old(next) + n + 1
      ensures old(next) + n >= size ==> r == Finished && next == size
    {
      var m := if n < size - next then n else size - next;
      next := next + m;
      r := Next();
    }
  }

  //
  // The number iterators `Ipv4CidrIterator` and `Ipv6CidrIterator`: the octet iterators with
  // each item read back through `transmute`.
  //

  /**
   * `u8_array_to_u32` / `u8_array_to_u128` mapped over an item: a little-endian host reads
   * the big-endian octets of the address `p` as the stored word `Swap(n, p)`, the same word
   * the block keeps for its prefix, so swapping the item again gives the address back.
   */
  method ReadWord(r: Produced, ghost n: nat, ghost p: nat) returns (s: Produced)
    requires p < Pow2(8 * n)
    requires r.Produced? ==> r.item == Octets(ToBe(p, n, 8))
    ensures r.Produced? ==> s == Produced(Number(Swap(n, p)))
    ensures r.Produced? ==> s.item.value < Pow2(8 * n) && Swap(n, s.item.value) == p
    ensures !r.Produced? ==> s == r
  {
    if r.Produced? {
      var v := FromBe(Reverse(r.item.bytes), 8);
      SwapInvolution(n, p);
      s := Produced(Number(v));
    } else {
      s := r;
    }
  }

  /** `Ipv4CidrIterator`: the `u32` words of the addresses, in the host's byte order. */
  class NarrowWordIterator {
    const iter: NarrowIterator

    ghost predicate Valid()
      reads this, iter
    {
      iter.Valid()
    }

    /** `iter`: the octet iterator over the whole block. */
    constructor (c: Cidr)
      requires Cidrs.Valid(32, c)
      ensures Valid() && fresh(iter) && iter.next == 0
      ensures iter.from == c.prefix && iter.size == Size(32, c)
    {
      iter := new NarrowIterator(c);
    }

    method Next() returns (r: Produced)
      requires Valid()
      modifies iter
      ensures Valid() && !r.Panicked?
      ensures old(iter.next) == iter.size ==> r == Finished && iter.next == iter.size
      ensures old(iter.next) < iter.size ==>
        var p := iter.from + old(iter.next);
        p < Pow2(32) && r == Produced(Number(Swap(4, p))) && iter.next == old(iter.next) + 1
    {
      Cursors.Pow2Of32();
      ghost var p := if iter.next < iter.size then iter.from + iter.next else 0;
      var o := iter.Next();
      r := ReadWord(o, 4, p);
    }

    method Last() returns (r: Produced)
      requires Valid()
      modifies iter
      ensures var p := iter.from + iter.size - 1;
        p < Pow2(32) && r == Produced(Number(Swap(4, p)))
    {
      Cursors.Pow2Of32();
      var o := iter.Last();
      r := ReadWord(o, 4, iter.from + iter.size - 1);
    }

    /** `nth_u64`: the word of the address `n` past `next`, or nothing past the end. */
    method NthU64(n: nat) returns (r: Produced)
      requires Valid() && n < Cursors.U64_LIMIT
      modifies iter
      ensures Valid() && !r.Panicked?
      ensures old(iter.next) + n < iter.size ==>
        var p := iter.from + old(iter.next) + n;
        p < Pow2(32) && r == Produced(Number(Swap(4, p))) && iter.next == old(iter.next) + n + 1
      ensures old(iter.next) + n >= iter.size ==> r == Finished && iter.next == iter.size
    {
      Cursors.Pow2Of32();
      ghost var p := if iter.next + n < iter.size then iter.from + iter.next + n else 0;
      var o := iter.NthU64(n);
      r := ReadWord(o, 4, p);
    }
  }

  /** `Ipv6CidrIterator`: the `u128` words of the addresses, in the host's byte order. */
  class WideWordIterator {
    const iter: WideIterator

    ghost predicate Valid()
      reads this, iter
    {
      iter.Valid() && iter.encoding == AsOctets
    }

    /** `iter`: the octet iterator over the whole block. */
    constructor (c: Cidr)
      requires Cidrs.Valid(128, c)
      ensures Valid() && fresh(iter) && iter.next == Count(0, false)
      ensures iter.from == c.prefix && iter.size == SizeCount(c)
    {
      iter := new WideIterator(c, AsOctets);
    }

    method Next() returns (r: Produced)
      requires Valid()
      modifies iter
      ensures Valid() && !r.Panicked?
      ensures Val(old(iter.next)) == Val(iter.size) ==> r == Finished && iter.next == old(iter.next)
      ensures Val(old(iter.next)) < Val(iter.size) ==>
        var p := iter.from + Val(old(iter.next));
        p < Pow2(128) && r == Produced(Number(Swap(16, p))) && Val(iter.next) == Val(old(iter.next)) + 1
    {
      Pow2Of128();
      ghost var p := if Val(iter.next) < Val(iter.size) then iter.from + Val(iter.next) else 0;
      var o := iter.Next();
      r := ReadWord(o, 16, p);
    }

    /** `last`, with the octet iterator's underflow on the whole space. */
    method Last() returns (r: Produced)
      requires Valid()
      modifies iter
      ensures r.Panicked? <==> iter.size.full
      ensures !r.Panicked? ==>
        var p := iter.from + Val(iter.size) - 1;
        p < Pow2(128) && r == Produced(Number(Swap(16, p)))
    {
      Pow2Of128();
      var o := iter.Last();
      r := ReadWord(o, 16, iter.from + Val(iter.size) - 1);
    }

    /** `nth_u128`: the word of the address `n` past `next`, or nothing past the end. */
    method NthU128(n: Count) returns (r: Produced)
      requires Valid() && n.low < U128_LIMIT
      modifies iter
      ensures Valid() && !r.Panicked?
      ensures Val(old(iter.next)) + Val(n) < Val(iter.size) ==>
        var p := iter.from + Val(old(iter.next)) + Val(n);
        p < Pow2(128) && r == Produced(Number(Swap(16, p))) && Val(iter.next) == Val(old(iter.next)) + Val(n) + 1
      ensures Val(old(iter.next)) + Val(n) >= Val(iter.size) ==> r == Finished && iter.next == iter.size
    {
      Pow2Of128();
      ghost var p := if Val(iter.next) + Val(n) < Val(iter.size) then iter.from + Val(iter.next) + Val(n) else 0;
      var o := iter.NthOctets(n);
      r := ReadWord(o, 16, p);
    }
  }

  /** The word a little-endian host stores for `10.0.0.1` is `0x0100000A`. */
  lemma NarrowWordExample()
    ensures 0x0A00_0001 < Pow2(32) && Swap(4, 0x0A00_0001) == 0x0100_000A
  {
    Cursors.Pow2Of32();
    Segments.DigitWidths();
    var t := ToBe(0x0A00_0001, 4, 8);
    assert t == [10, 0, 0, 1] by {
      assert ToBe(0x0A, 1, 8) == [10];
      assert ToBe(0x0A00, 2, 8) == [10, 0];
      assert ToBe(0x0A_0000, 3, 8) == [10, 0, 0];
    }
    var u := Reverse(t);
    assert u == [1, 0, 0, 10];
    assert u[..3] == [1, 0, 0] && [1, 0, 0][..2] == [1, 0] && [1, 0][..1] == [1] && [1][..0] == [];
    assert FromBe([1], 8) == 1;
    assert FromBe([1, 0], 8) == 0x100;
    assert FromBe([1, 0, 0], 8) == 0x1_0000;
  }

  /** `10.0.0.1/32` iterated as numbers: its one item is the swapped word `0x0100000A`. */
  method NarrowWordWitness() returns (r: Produced)
    ensures r == Produced(Number(0x0100_000A))
  {
    Cursors.Pow2Of32();
    var c := Block(32, 0x0A00_0001, 32);
    var it := new NarrowWordIterator(c);
    r := it.Next();
    NarrowWordExample();
  }
}
