/**
 * The double-ended address cursor behind every block iterator of the module and newest
 * generations (`Ipv4CidrU8ArrayIterator`, `Ipv6CidrU8ArrayIterator`,
 * `Ipv6CidrU16ArrayIterator`): the block's first address `from`, its `size`, and the
 * half-open window `[next, back)` of offsets not yet produced. The IPv4 counters are `u64`;
 * the IPv6 counters are `BigUint`, modelled as unbounded naturals.
 */
module Cursors {
  import opened Bits
  import opened Wrappers
  import opened Cidrs

  /** The `n` consecutive addresses starting at `lo`, ascending. */
  function Range(lo: nat, n: nat): (s: seq<nat>)
    ensures |s| == n
    ensures forall i :: 0 <= i < n ==> s[i] == lo + i
  {
    seq(n, i requires 0 <= i => lo + i)
  }

  /** The addresses of a block, in ascending order, are exactly the block's members. */
  lemma RangeIsBlock(w: nat, c: Cidr)
    requires Valid(w, c)
    ensures forall i, j :: 0 <= i < j < Size(w, c) ==> Range(c.prefix, Size(w, c))[i] < Range(c.prefix, Size(w, c))[j]
    ensures forall a: nat :: a in Range(c.prefix, Size(w, c)) <==> a < Pow2(w) && Contains(w, c, a)
    ensures Range(c.prefix, Size(w, c))[0] == First(w, c)
    ensures Range(c.prefix, Size(w, c))[Size(w, c) - 1] == Last(w, c)
  {
    var r := Range(c.prefix, Size(w, c));
    forall a: nat | a < Pow2(w) && Contains(w, c, a)
      ensures a in r
    {
      assert r[a - c.prefix] == a;
    }
  }

  /** `u64::MAX + 1`: the IPv4 counters are 64-bit. */
  const U64_LIMIT: nat := 0x1_0000_0000_0000_0000

  lemma Pow2Of32()
    ensures Pow2(32) == 0x1_0000_0000
  {
    Pow2Double(4, 16);
    Pow2Double(8, 256);
    Pow2Double(16, 0x1_0000);
  }

  /** One past the largest address of the family: `2^32` or `2^128`. */
  function Limit(f: Family): nat
  {
    if f == IPv4 then 0x1_0000_0000 else U128_LIMIT
  }

  lemma LimitIsPow2(f: Family)
    ensures Limit(f) == Pow2(Width(f))
  {
    if f == IPv4 {
      Pow2Of32();
    } else {
      Pow2Of128();
    }
  }

  /** What `nth` returns: an address, exhaustion, or a panic on the `u64` counter's `+=`. */
  datatype Yield = Yielded(addr: nat) | Ended | CounterOverflow

  /** What `size_hint` returns: the remaining count, or a panic on `back - next`. */
  datatype Hint = Exact(remaining: nat) | HintUnderflow

  class Cursor {
    /** IPv4 cursors count in `u64`; IPv6 cursors in `BigUint`. */
    const family: Family
    const from: nat
    const size: nat
    var next: nat
    var back: nat

    ghost predicate Valid()
      reads this
    {
      && 1 <= size
      && from + size <= Limit(family)
      && next <= size
      && back <= size
    }

    /** The addresses still to be produced, from the front to the back. */
    ghost function Remaining(): (s: seq<nat>)
      reads this
      ensures |s| == if next < back then back - next else 0
    {
      if next < back then Range(from + next, back - next) else []
    }

    /** `iter_as_u8_array` / `new`: the whole block, `next = 0` and `back = size`. */
    constructor (f: Family, c: Cidr)
      requires Cidrs.Valid(Width(f), c)
      ensures Valid()
      ensures family == f && from == c.prefix && size == Size(Width(f), c)
      ensures next == 0 && back == size
      ensures Remaining() == Range(c.prefix, Size(Width(f), c))
    {
      LimitIsPow2(f);
      family := f;
      from := c.prefix;
      size := Size(Width(f), c);
      next := 0;
      back := Size(Width(f), c);
    }

    /** Every address still to come lies below `2^w`: the final addition cannot wrap. */
    lemma RemainingFits()
      requires Valid()
      ensures forall i :: 0 <= i < |Remaining()| ==> from <= Remaining()[i] < Limit(family)
    {
    }

    /** `next`: take the front address while the window is not empty. */
    method Next() returns (r: Option<nat>)
      requires Valid()
      modifies this
      ensures Valid() && back == old(back)
      ensures old(next) < old(back) ==> r == Some(from + old(next)) && next == old(next) + 1
      ensures old(next) >= old(back) ==> r == None && next == old(next)
      ensures r == if old(Remaining()) == [] then None else Some(old(Remaining())[0])
      ensures Remaining() == if old(Remaining()) == [] then [] else old(Remaining())[1..]
    {
      if next < back {
        var p := from + next;
        next := next + 1;
        r := Some(p);
      } else {
        r := None;
      }
    }

    /** `next_back`: take the back address while the window is not empty. */
    method NextBack() returns (r: Option<nat>)
      requires Valid()
      modifies this
      ensures Valid() && next == old(next)
      ensures old(next) < old(back) ==> r == Some(from + old(back) - 1) && back == old(back) - 1
      ensures old(next) >= old(back) ==> r == None && back == old(back)
      ensures r == if old(Remaining()) == [] then None else Some(old(Remaining())[|old(Remaining())| - 1])
      ensures Remaining() == if old(Remaining()) == [] then [] else old(Remaining())[..|old(Remaining())| - 1]
    {
      if next < back {
        back := back - 1;
        r := Some(from + back);
      } else {
        r := None;
      }
    }

    /**
     * `nth_u64` / `nth_big_uint`: skip `n` addresses and take the next one; when that runs
     * past the back, set `next = size`. On an IPv4 cursor `next += n` is a `u64` addition,
     * which panics once the sum reaches `2^64`.
     */
    method Nth(n: nat) returns (r: Yield)
      requires Valid() && (family == IPv4 ==> n < U64_LIMIT)
      modifies this
      ensures Valid() && back == old(back)
      ensures r.CounterOverflow? <==> family == IPv4 && old(next) + n >= U64_LIMIT
      ensures r.CounterOverflow? ==> next == old(next)
      ensures r.Yielded? <==> !r.CounterOverflow? && old(next) + n < old(back)
      ensures r.Yielded? ==> r.addr == from + old(next) + n && next == old(next) + n + 1
      ensures r.Ended? ==> next == size
      ensures r.Yielded? ==> r.addr == old(Remaining())[n] && Remaining() == old(Remaining())[n + 1..]
      ensures r.Ended? ==> Remaining() == [] && n >= |old(Remaining())|
    {
      if family == IPv4 && next + n >= U64_LIMIT {
        return CounterOverflow;
      }
      next := next + n;
      if next < back {
        var p := from + next;
        next := next + 1;
        r := Yielded(p);
      } else {
        next := size;
        r := Ended;
      }
    }

    /**
     * `nth_back_u64` / `nth_back_big_uint`: drop `n` addresses from the back and take the
     * one before them; when that runs past the front, set `next = size`.
     */
    method NthBack(n: nat) returns (r: Option<nat>)
      requires Valid()
      modifies this
      ensures Valid()
      ensures r.Some? <==> old(back) > n && old(next) < old(back) - n
      ensures r.Some? ==> r.value == from + old(back) - n - 1 && back == old(back) - n - 1 && next == old(next)
      ensures r.None? ==> next == size && back == if old(back) > n then old(back) - n else old(back)
      ensures r.Some? ==> r.value == old(Remaining())[|old(Remaining())| - 1 - n]
      ensures r.Some? ==> Remaining() == old(Remaining())[..|old(Remaining())| - 1 - n]
      ensures r.None? ==> Remaining() == [] && n >= |old(Remaining())|
    {
      if back > n {
        back := back - n;
        if next < back {
          back := back - 1;
          return Some(from + back);
        }
      }
      next := size;
      r := None;
    }

    /** `last`: the back address, when the window is not empty. */
    method Last() returns (r: Option<nat>)
      requires Valid()
      ensures r == if Remaining() == [] then None else Some(Remaining()[|Remaining()| - 1])
      ensures r.Some? ==> r.value == from + back - 1
    {
      if next < back {
        var n := back - 1;
        r := Some(from + n);
      } else {
        r := None;
      }
    }

    /** `count`: the number of addresses left, guarded against `next > back`. */
    method Count() returns (r: nat)
      requires Valid()
      ensures r == |Remaining()|
    {
      if next < back {
        r := back - next;
      } else {
        r := 0;
      }
    }

    /**
     * `size_hint` of the IPv4 cursors as written: `back - next` with no guard, which
     * underflows once `nth` has pushed `next` past a lowered `back`.
     */
    method SizeHint() returns (r: Hint)
      requires Valid() && family == IPv4
      ensures r.HintUnderflow? <==> next > back
      ensures r.Exact? ==> r.remaining == |Remaining()|
    {
      if next > back {
        return HintUnderflow;
      }
      r := Exact(back - next);
    }

    /** `size_hint` with the guard `count` has: always the number of addresses left. */
    method SizeHintFixed() returns (r: nat)
      requires Valid() && family == IPv4
      ensures r == |Remaining()|
    {
      if next < back {
        r := back - next;
      } else {
        r := 0;
      }
    }

    /** `nth_u64` with a saturating `next += n`: never panics, and meets the iterator contract. */
    method NthSaturating(n: nat) returns (r: Option<nat>)
      requires Valid() && family == IPv4 && n < U64_LIMIT
      modifies this
      ensures Valid() && back == old(back)
      ensures r.Some? <==> n < |old(Remaining())|
      ensures r.Some? ==> r.value == old(Remaining())[n] && Remaining() == old(Remaining())[n + 1..]
      ensures r.None? ==> Remaining() == []
    {
      var sum := next + n;
      if sum >= U64_LIMIT {
        sum := U64_LIMIT - 1;
      }
      Pow2Of32();
      if sum < back {
        next := sum + 1;
        r := Some(from + sum);
      } else {
        next := size;
        r := None;
      }
    }
  }

  /**
   * A one-address block whose back address is taken, then `nth(0)`: `next` becomes
   * `size = 1` above `back = 0`, and `size_hint` underflows where the guarded one says 0.
   */
  method SizeHintUnderflowWitness() returns (h: Hint, fixed: nat)
    ensures h == HintUnderflow && fixed == 0
  {
    var c := Block(32, 0, 32);
    var cur := new Cursor(IPv4, c);
    var x := cur.NextBack();
    var y := cur.Nth(0);
    h := cur.SizeHint();
    fixed := cur.SizeHintFixed();
  }

  /**
   * After one `next` on any IPv4 cursor, `nth(u64::MAX)` overflows the `u64` counter; the
   * saturating version reports exhaustion instead.
   */
  method NthOverflowWitness(c: Cidr) returns (r: Yield, s: Option<nat>)
    requires Cidrs.Valid(32, c)
    ensures r == CounterOverflow && s == None
  {
    var cur := new Cursor(IPv4, c);
    Pow2Of32();
    var x := cur.Next();
    assert cur.next == 1 && cur.back <= 0x1_0000_0000;
    r := cur.Nth(U64_LIMIT - 1);
    s := cur.NthSaturating(U64_LIMIT - 1);
  }
}
