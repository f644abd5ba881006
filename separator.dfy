/**
 * The arithmetic the separators rest on: `ilog2`, the power-of-two test the `f64` code
 * approximates, the tiling of a block by equal sub-blocks, and `step_by`.
 */
module Tilings {
  import opened Bits
  import opened Cidrs
  import opened BlockLists

  /** `ilog2`: the position of the highest set bit. */
  function Log2(n: nat): (k: nat)
    requires 1 <= n
    ensures Pow2(k) <= n < 2 * Pow2(k)
  {
    if n == 1 then 0 else 1 + Log2(n / 2)
  }

  /**
   * `n` is a power of two. The module and transmute IPv6 separators decide this with
   * `(log2 n - floor(log2 n)).abs() < 2 * EPSILON` on `f64`; this is the exact predicate
   * that test stands for.
   */
  predicate IsPow2(n: nat)
  {
    1 <= n && Pow2(Log2(n)) == n
  }

  lemma Log2OfPow2(k: nat)
    ensures Log2(Pow2(k)) == k && IsPow2(Pow2(k))
  {
    var j := Log2(Pow2(k));
    assert Pow2(j) <= Pow2(k) < 2 * Pow2(j);
    if j < k {
      Pow2Mono(j, k);
      assert false;
    } else if j > k {
      Pow2Mono(k, j);
      assert false;
    }
  }

  lemma OddProduct(x: nat, y: nat)
    requires x % 2 == 1 && y % 2 == 1
    ensures (x * y) % 2 == 1
  {
    var a, b := x / 2, y / 2;
    assert x * y == (2 * a + 1) * (2 * b + 1);
    assert (2 * a + 1) * (2 * b + 1) == 2 * (2 * a * b + a + b) + 1;
    DivModUnique(x * y, 2, 2 * a * b + a + b, 1);
  }

  /** Every factor of a power of two is a power of two. */
  lemma {:induction false} FactorOfPow2(n: nat, q: nat, k: nat)
    requires q * n == Pow2(k)
    ensures IsPow2(n)
    decreases k
  {
    if k == 0 {
      if n != 1 {
        assert n >= 2 && q >= 1;
        MulMonoLeft(q, 1, n);
        assert false;
      }
    } else {
      var h := Pow2(k - 1);
      assert q * n == 2 * h;
      DivModUnique(q * n, 2, h, 0);
      if n % 2 == 0 {
        var m := n / 2;
        assert n == 2 * m;
        assert q * n == 2 * (q * m);
        FactorOfPow2(m, q, k - 1);
        assert Log2(n) == 1 + Log2(m);
      } else {
        if q % 2 == 1 {
          OddProduct(q, n);
          assert false;
        }
        var r := q / 2;
        assert q == 2 * r;
        assert q * n == 2 * (r * n);
        FactorOfPow2(n, r, k - 1);
      }
    }
  }

  /**
   * The two even-path tests agree on a block: for `1 <= n <= 2^k`, `(2^k / n) * n == 2^k`
   * exactly when `n` is a power of two, and then the quotient is `2^(k - log2 n)`.
   */
  lemma EvenSplit(k: nat, n: nat)
    requires 1 <= n <= Pow2(k)
    ensures (Pow2(k) / n) * n == Pow2(k) <==> IsPow2(n)
    ensures IsPow2(n) ==> Log2(n) <= k && Pow2(k) / n == Pow2(k - Log2(n))
  {
    if (Pow2(k) / n) * n == Pow2(k) {
      FactorOfPow2(n, Pow2(k) / n, k);
    }
    if IsPow2(n) {
      PowerSplit(k, n);
    }
  }

  /** A power of two `n` no larger than `2^k` divides it, leaving `2^(k - log2 n)`. */
  lemma PowerSplit(k: nat, n: nat)
    requires 1 <= n <= Pow2(k) && IsPow2(n)
    ensures Log2(n) <= k && Pow2(k) / n == Pow2(k - Log2(n)) && (Pow2(k) / n) * n == Pow2(k)
  {
    var j := Log2(n);
    if j > k {
      Pow2Mono(k, j);
    }
    Pow2Divides(j, k);
    var q := Pow2(k - j);
    assert Pow2(k) == n * q;
    DivModUnique(Pow2(k), n, q, 0);
  }

  /** A number that `n` does not divide: one less than it has the same quotient. */
  lemma QuotientBelow(a: nat, n: nat)
    requires 1 <= n && 1 <= a && a % n != 0
    ensures (a - 1) / n == a / n
  {
    DivModUnique(a - 1, n, a / n, a % n - 1);
  }

  /** A power of two `n >= 2` divides `2^k` once, and one less than `2^k` falls short by one. */
  lemma QuotientAtPow2(k: nat, n: nat)
    requires 2 <= n <= Pow2(k) && IsPow2(n)
    ensures (Pow2(k) - 1) / n + 1 == Pow2(k) / n
  {
    PowerSplit(k, n);
    QuotientAtMultiple(Pow2(k), n, Pow2(k) / n);
  }

  /** When `n` divides `a` exactly, `a - 1` falls one short of the same quotient. */
  lemma QuotientAtMultiple(a: nat, n: nat, q: nat)
    requires 1 <= n && 1 <= q && q * n == a
    ensures (a - 1) / n + 1 == a / n == q
  {
    assert a - 1 == n * (q - 1) + (n - 1);
    DivModUnique(a - 1, n, q - 1, n - 1);
    DivModUnique(a, n, q, 0);
  }

  //
  // Tiling a block with sub-blocks of one length.
  //

  /** `c`'s prefix is a multiple of its size, and the size is `2^(w - len)`. */
  lemma Aligned(w: nat, c: Cidr)
    requires Valid(w, c)
    ensures Size(w, c) == Pow2(w - Len(w, c)) && c.prefix % Size(w, c) == 0
  {
    assert First(w, c) == c.prefix;
  }

  /** The `k`-th sub-block of length `bits` of `c`. */
  function Tile(w: nat, c: Cidr, bits: nat, k: nat): (t: Cidr)
    requires Valid(w, c) && Len(w, c) <= bits <= w && k < Pow2(bits - Len(w, c))
    ensures Valid(w, t) && Len(w, t) == bits
    ensures t.prefix == c.prefix + k * Pow2(w - bits) && Size(w, t) == Pow2(w - bits)
    ensures Within(w, t, c)
  {
    TileFits(w, c, bits, k);
    Aligned(w, Block(w, c.prefix + k * Pow2(w - bits), bits));
    Block(w, c.prefix + k * Pow2(w - bits), bits)
  }

  lemma TileFits(w: nat, c: Cidr, bits: nat, k: nat)
    requires Valid(w, c) && Len(w, c) <= bits <= w && k < Pow2(bits - Len(w, c))
    ensures var p := c.prefix + k * Pow2(w - bits);
      p % Pow2(w - bits) == 0 && p + Pow2(w - bits) <= c.prefix + Size(w, c)
    ensures c.prefix + Size(w, c) <= Pow2(w)
  {
    Aligned(w, c);
    Pow2Add(bits - Len(w, c), w - bits);
    MulMonoLeft(Pow2(bits - Len(w, c)), 1, Pow2(w - bits));
    AlignedStep(c.prefix, Pow2(w - bits), Pow2(bits - Len(w, c)), k);
  }

  /** Inside a run of `m` aligned steps of `s`, the `k`-th step starts aligned and fits. */
  lemma AlignedStep(p: nat, s: nat, m: nat, k: nat)
    requires 1 <= s && k < m && 1 <= m * s && p % (m * s) == 0
    ensures (p + k * s) % s == 0 && p + k * s + s <= p + m * s
  {
    DivModUnique(m * s, s, m, 0);
    DivisibleMultiple(p, s, m * s);
    var x := p / s;
    assert p == s * x;
    assert p + k * s == s * (x + k);
    DivModUnique(p + k * s, s, x + k, 0);
    MulMonoLeft(s, k + 1, m);
    assert s * (k + 1) == k * s + s;
    assert s * m == m * s;
  }

  /** The `2^(bits - len)` sub-blocks of length `bits` of `c`, in ascending order. */
  function Tiles(w: nat, c: Cidr, bits: nat): (t: seq<Cidr>)
    requires Valid(w, c) && Len(w, c) <= bits <= w
    ensures |t| == Pow2(bits - Len(w, c))
    ensures forall k :: 0 <= k < |t| ==> t[k] == Tile(w, c, bits, k)
  {
    seq(Pow2(bits - Len(w, c)), k requires 0 <= k < Pow2(bits - Len(w, c)) => Tile(w, c, bits, k))
  }

  /** The tiles follow each other without a gap: tile `k` ends where tile `k + 1` starts. */
  lemma TilesChain(w: nat, c: Cidr, bits: nat)
    requires Valid(w, c) && Len(w, c) <= bits <= w
    ensures Chain(w, Tiles(w, c, bits))
    ensures forall k :: 0 <= k < |Tiles(w, c, bits)| - 1 ==> Last(w, Tiles(w, c, bits)[k]) + 1 == Tiles(w, c, bits)[k + 1].prefix
  {
    var t := Tiles(w, c, bits);
    var s := Pow2(w - bits);
    forall k | 0 <= k < |t| - 1
      ensures Last(w, t[k]) + 1 == t[k + 1].prefix
    {
      assert (k + 1) * s == k * s + s;
    }
  }

  /** The tiles cover the block and nothing else. */
  lemma TilesCover(w: nat, c: Cidr, bits: nat)
    requires Valid(w, c) && Len(w, c) <= bits <= w
    ensures AllValid(w, Tiles(w, c, bits))
    ensures forall a :: Covers(w, Tiles(w, c, bits), a) <==> InBlock(w, c, a)
  {
    forall a: nat
      ensures Covers(w, Tiles(w, c, bits), a) <==> InBlock(w, c, a)
    {
      if InBlock(w, c, a) {
        TileOf(w, c, bits, a);
      }
    }
  }

  /** An address of the block lies in the tile its offset falls in. */
  lemma TileOf(w: nat, c: Cidr, bits: nat, a: nat)
    requires Valid(w, c) && Len(w, c) <= bits <= w && InBlock(w, c, a)
    ensures Covers(w, Tiles(w, c, bits), a)
  {
    var t := Tiles(w, c, bits);
    var s := Pow2(w - bits);
    assert a - c.prefix < |t| * s by {
      Aligned(w, c);
      Pow2Add(bits - Len(w, c), w - bits);
    }
    var k := StepIndex(a - c.prefix, s, |t|);
    assert t[k].prefix <= a <= Last(w, t[k]);
  }

  /** An offset below `m` steps of `s` falls in one of the steps. */
  lemma StepIndex(x: nat, s: nat, m: nat) returns (k: nat)
    requires 1 <= s && x < m * s
    ensures k < m && k * s <= x < k * s + s
  {
    k := x / s;
    DivModUnique(x, s, k, x % s);
    if k >= m {
      MulMonoLeft(s, m, k);
    }
  }

  /** A tiling with the block's own length is the block. */
  lemma TilesOfLen(w: nat, c: Cidr)
    requires Valid(w, c)
    ensures Tiles(w, c, Len(w, c)) == [c]
  {
    Unique(w, Tiles(w, c, Len(w, c))[0], c);
  }

  //
  // `step_by`.
  //

  lemma CeilBound(k: nat, n: nat, d: nat)
    requires 1 <= d && k < (n + d - 1) / d
    ensures k * d < n
  {
    var m := (n + d - 1) / d;
    DivModUnique(n + d - 1, d, m, (n + d - 1) % d);
    MulMonoLeft(d, k + 1, m);
  }

  /** `step_by(d)`: the elements at offsets `0, d, 2d, ...`. */
  function StepBy(s: seq<nat>, d: nat): (t: seq<nat>)
    requires 1 <= d
    ensures |t| == (|s| + d - 1) / d
    ensures forall k :: 0 <= k < |t| ==> k * d < |s| && t[k] == s[k * d]
  {
    var m := (|s| + d - 1) / d;
    assert forall k :: 0 <= k < m ==> k * d < |s| by {
      forall k | 0 <= k < m
        ensures k * d < |s|
      {
        CeilBound(k, |s|, d);
      }
    }
    seq(m, k requires 0 <= k < m => s[k * d])
  }

  /** When `d` divides the length, `step_by(d)` takes exactly `length / d` elements. */
  lemma StepByExact(n: nat, d: nat, q: nat)
    requires 1 <= d && n == q * d
    ensures (n + d - 1) / d == q
  {
    DivModUnique(n + d - 1, d, q, d - 1);
  }
}

/**
 * What the uneven path of `divide_by` keeps true while it fills combiners: each combiner
 * handed over holds one run of consecutive addresses.
 */
module CombinerRuns {
  import opened Wrappers
  import opened Cidrs
  import opened BlockLists
  import opened Combiners
  import opened Cursors

  /** No combiner appears twice: filling one leaves the others alone. */
  predicate Distinct(s: seq<Combiner>)
  {
    forall i, j :: 0 <= i < j < |s| ==> s[i] != s[j]
  }

  /** Combiner `b` covers exactly the addresses `lo <= a < hi`. */
  ghost predicate Holds(w: nat, b: Combiner, lo: int, hi: int)
    reads b
  {
    Run(w, b.cidrs, lo, hi)
  }

  /** The list `s` is normal and covers exactly the addresses `lo <= a < hi`. */
  ghost predicate Run(w: nat, s: seq<Cidr>, lo: int, hi: int)
  {
    Normal(w, s) && forall a: nat :: Covers(w, s, a) <==> lo <= a < hi
  }

  /**
   * What `divide_by` hands out: `count` distinct combiners, the `k`-th covering the `d`
   * addresses from `lo + k * d` and the last one everything from there up to `lo + size`.
   */
  ghost predicate Divided(w: nat, output: seq<Combiner>, f: Family, g: Generation, lo: nat, size: nat, d: nat, count: nat)
    reads output
  {
    && 1 <= count && |output| == count && Distinct(output)
    && (forall k :: 0 <= k < count ==> output[k].family == f && output[k].generation == g)
    && (forall k :: 0 <= k < count - 1 ==> Holds(w, output[k], lo + k * d, lo + (k + 1) * d))
    && Holds(w, output[count - 1], lo + (count - 1) * d, lo + size)
  }

  /** Fewer than `cap` combiners have been handed over, if there is a cap. */
  predicate Open(n: nat, cap: Option<nat>)
  {
    cap.None? || n < cap.value
  }

  /** Consecutive entries differ by `d`. */
  predicate Spaced(s: seq<nat>, d: nat)
  {
    forall k :: 0 <= k < |s| - 1 ==> s[k + 1] == s[k] + d
  }

  /** List `snap[k]` covers the run from `lo + bounds[k]` to `lo + bounds[k + 1]`. */
  ghost predicate Runs(w: nat, snap: seq<seq<Cidr>>, lo: nat, bounds: seq<nat>)
  {
    |bounds| == |snap| + 1 && forall k :: 0 <= k < |snap| ==> Run(w, snap[k], lo + bounds[k], lo + bounds[k + 1])
  }

  /** The combiners handed over hold the lists `snap`. */
  ghost predicate Handed(output: seq<Combiner>, snap: seq<seq<Cidr>>, f: Family, g: Generation)
    reads output
  {
    |output| == |snap| && forall k :: 0 <= k < |output| ==> output[k].family == f && output[k].generation == g && output[k].cidrs == snap[k]
  }

  /**
   * The state of the uneven path after `top` addresses of the block from `lo`: the
   * combiners handed over hold the runs `snap` between `bounds`, `d` addresses apart, and the
   * current combiner holds the `i - 1` addresses since.
   */
  ghost predicate Filling(w: nat, f: Family, g: Generation, lo: nat, d: nat, cap: Option<nat>, output: seq<Combiner>,
                          current: Combiner, snap: seq<seq<Cidr>>, bounds: seq<nat>, i: nat, top: nat)
    reads output, current
  {
    && w == Width(f) && 1 <= i && (i <= d || !Open(|output|, cap)) && (cap.Some? ==> |output| <= cap.value)
    && |bounds| == |output| + 1 && bounds[0] == 0 && Spaced(bounds, d)
    && top == bounds[|output|] + i - 1
    && Distinct(output) && current !in output
    && current.family == f && current.generation == g
    && Holds(w, current, lo + bounds[|output|], lo + top)
    && Handed(output, snap, f, g)
    && Runs(w, snap, lo, bounds)
  }
}

/**
 * `Ipv4CidrSeparator` / `Ipv6CidrSeparator`: `divide_by` and `sub_networks`, for the
 * module generation (`src/utils/v4`, `src/utils/v6`), the newest generation
 * (`src/separator/v6.rs`) and the transmute generation (the flat `src/utils` files). They
 * walk the block with an address cursor and fill combiners.
 */
module Separators {
  import opened Bits
  import opened Wrappers
  import opened Cidrs
  import opened Compare
  import opened BlockLists
  import opened Combiners
  import opened Cursors
  import opened Tilings
  import opened CombinerRuns

  /** `usize::MAX + 1` on a 64-bit host. */
  const USIZE_LIMIT: nat := U64_LIMIT

  /** What `step_by(d)` takes from the run of `n` addresses from `lo`: every `d`-th one. */
  lemma StepByRange(lo: nat, n: nat, d: nat, s: seq<nat>)
    requires 1 <= d && |s| == (n + d - 1) / d
    requires forall k :: 0 <= k < |s| ==> s[k] == lo + k * d
    ensures s == StepBy(Range(lo, n), d)
  {
  }

  /**
   * The path taken when `d` does not fit a `usize`: one `next`, then `nth(d - 1)` until the
   * cursor is exhausted (`nth_big_uint`, or `nth_u128` in the transmute generation). It hands
   * out exactly the addresses `step_by(d)` would.
   */
  method SkipWalk(f: Family, c: Cidr, d: nat) returns (starts: seq<nat>)
    requires Valid(Width(f), c) && 1 <= d <= Size(Width(f), c)
    ensures starts == StepBy(Range(c.prefix, Size(Width(f), c)), d)
  {
    assert f == IPv4 ==> Size(Width(f), c) + d < U64_LIMIT by {
      Pow2Of32();
    }
    var it := new Cursor(f, c);
    starts := Walk(it, d);
  }

  /** The walk itself, on a fresh cursor: `next`, then `nth(d - 1)` until it ends. */
  method Walk(it: Cursor, d: nat) returns (starts: seq<nat>)
    requires it.Valid() && it.next == 0 && it.back == it.size && 1 <= d <= it.size
    requires it.family == IPv4 ==> it.size + d < U64_LIMIT
    modifies it
    ensures starts == StepBy(Range(it.from, it.size), d)
  {
    var first := it.Next();
    starts := [first.value];
    ghost var base: nat := 0;
    while true
      invariant it.Valid() && it.back == it.size
      invariant 1 <= |starts| && base < it.size && it.next == base + 1
      invariant starts[0] == it.from && starts[|starts| - 1] == it.from + base
      invariant forall k :: 0 <= k < |starts| - 1 ==> starts[k + 1] == starts[k] + d
      decreases it.size - it.next
    {
      var r := Skip(it, d - 1);
      match r
      case Yielded(a) =>
        base := base + d;
        starts := starts + [a];
      case Ended =>
        EvenlySpaced(starts, it.from, d);
        WalkCount(it.size, d, |starts|, base);
        StepByRange(it.from, it.size, d, starts);
        return;
      case CounterOverflow =>
        assert false;
    }
  }

  /** The walk stops after the `m`-th address, the last one below `n`: `m` is `ceil(n / d)`. */
  lemma WalkCount(n: nat, d: nat, m: nat, base: nat)
    requires 1 <= d && 1 <= m && base == (m - 1) * d && base < n <= base + d
    ensures m == (n + d - 1) / d
  {
    assert m * d == (m - 1) * d + d;
    DivModUnique(n + d - 1, d, m, n - 1 - base);
  }

  /** A sequence that starts at `lo` and climbs by `d` at every step is `lo, lo + d, lo + 2d, ...`. */
  lemma {:induction false} EvenlySpaced(s: seq<nat>, lo: nat, d: nat)
    requires 1 <= |s| && s[0] == lo
    requires forall k :: 0 <= k < |s| - 1 ==> s[k + 1] == s[k] + d
    ensures forall k :: 0 <= k < |s| ==> s[k] == lo + k * d
  {
    if |s| > 1 {
      var t := s[..|s| - 1];
      EvenlySpaced(t, lo, d);
      var m := |s| - 1;
      assert s[m] == t[m - 1] + d;
      assert m * d == (m - 1) * d + d;
    }
  }

  /** `nth` on a cursor, seen through the counters alone. */
  method Skip(it: Cursor, n: nat) returns (r: Yield)
    requires it.Valid() && (it.family == IPv4 ==> it.next + n < U64_LIMIT)
    modifies it
    ensures it.Valid() && it.back == old(it.back)
    ensures !r.CounterOverflow?
    ensures r.Yielded? <==> old(it.next) + n < old(it.back)
    ensures r.Yielded? ==> r.addr == it.from + old(it.next) + n && it.next == old(it.next) + n + 1
  {
    r := it.Nth(n);
  }

  /** The addresses the even path starts its blocks at: `step_by(d)` over the block. */
  method Starts(f: Family, c: Cidr, d: nat) returns (starts: seq<nat>)
    requires Valid(Width(f), c) && 1 <= d <= Size(Width(f), c)
    ensures starts == StepBy(Range(c.prefix, Size(Width(f), c)), d)
  {
    if d < USIZE_LIMIT {
      starts := StepBy(Range(c.prefix, Size(Width(f), c)), d);
    } else {
      starts := SkipWalk(f, c, d);
    }
  }

  /** Stepping through a block by the size of its length-`bits` tiles meets each tile's start. */
  lemma StartsAreTiles(w: nat, c: Cidr, bits: nat, starts: seq<nat>)
    requires Valid(w, c) && Len(w, c) <= bits <= w
    requires starts == StepBy(Range(c.prefix, Size(w, c)), Pow2(w - bits))
    ensures |starts| == |Tiles(w, c, bits)|
    ensures forall k :: 0 <= k < |starts| ==> starts[k] == Tiles(w, c, bits)[k].prefix
  {
    Aligned(w, c);
    Pow2Add(bits - Len(w, c), w - bits);
    StepByExact(Size(w, c), Pow2(w - bits), Pow2(bits - Len(w, c)));
  }

  /**
   * The even division: for `n` a power of two no larger than the block, the `n` blocks of
   * length `len + log2 n` that tile it.
   */
  function Parts(w: nat, c: Cidr, n: nat): (t: seq<Cidr>)
    requires Valid(w, c) && IsPow2(n) && n <= Size(w, c)
    ensures Len(w, c) + Log2(n) <= w && |t| == n
  {
    Aligned(w, c);
    EvenSplit(w - Len(w, c), n);
    Tiles(w, c, Len(w, c) + Log2(n))
  }

  /**
   * The parts of the even division are each `size / n` long, follow each other without
   * gaps, and cover the block exactly.
   */
  lemma EvenParts(w: nat, c: Cidr, n: nat)
    requires Valid(w, c) && IsPow2(n) && n <= Size(w, c)
    ensures forall k :: 0 <= k < n ==> Len(w, Parts(w, c, n)[k]) == Len(w, c) + Log2(n)
    ensures forall k :: 0 <= k < n ==> Size(w, Parts(w, c, n)[k]) == Size(w, c) / n
    ensures Chain(w, Parts(w, c, n))
    ensures forall a :: Covers(w, Parts(w, c, n), a) <==> InBlock(w, c, a)
  {
    var bits := Len(w, c) + Log2(n);
    var t := Parts(w, c, n);
    assert t == Tiles(w, c, bits);
    assert Size(w, c) / n == Pow2(w - bits) by {
      Aligned(w, c);
      EvenSplit(w - Len(w, c), n);
      assert w - bits == w - Len(w, c) - Log2(n);
    }
    TilesChain(w, c, bits);
    TilesCover(w, c, bits);
  }

  /** A block's size divides evenly by `n` exactly when `n` is a power of two. */
  lemma BlockSplit(w: nat, c: Cidr, n: nat)
    requires Valid(w, c) && 1 <= n <= Size(w, c)
    ensures (Size(w, c) / n) * n == Size(w, c) <==> IsPow2(n)
  {
    Aligned(w, c);
    EvenSplit(w - Len(w, c), n);
  }

  /** The step of the even path, `size / n`, is the size of a part. */
  lemma EvenStep(w: nat, c: Cidr, n: nat)
    requires Valid(w, c) && IsPow2(n) && n <= Size(w, c)
    ensures Len(w, c) + Log2(n) <= w
    ensures Size(w, c) / n == Pow2(w - (Len(w, c) + Log2(n))) && 1 <= Size(w, c) / n <= Size(w, c)
  {
    var k := w - Len(w, c);
    Aligned(w, c);
    EvenSplit(k, n);
    Pow2Mono(k - Log2(n), k);
    assert w - (Len(w, c) + Log2(n)) == k - Log2(n);
  }

  /** `output` is one combiner of family `f` and generation `g` per block, holding that block alone. */
  ghost predicate OneEach(output: seq<Combiner>, f: Family, g: Generation, blocks: seq<Cidr>)
    reads set k | 0 <= k < |output| :: output[k]
  {
    && |output| == |blocks| && Distinct(output)
    && (forall k :: 0 <= k < |output| ==> output[k].family == f && output[k].generation == g)
    && (forall k :: 0 <= k < |output| ==> output[k].Valid() && output[k].cidrs == [blocks[k]])
  }

  /** One fresh combiner per block, each holding that block alone. */
  method OnePerBlock(f: Family, g: Generation, w: nat, starts: seq<nat>, bits: nat, ghost blocks: seq<Cidr>)
    returns (output: seq<Combiner>)
    requires w == Width(f) && |starts| == |blocks| && bits <= w
    requires BlocksAt(w, blocks, starts, bits)
    ensures OneEach(output, f, g, blocks)
  {
    output := [];
    var i := 0;
    while i < |starts|
      invariant 0 <= i <= |starts| && OneEach(output, f, g, blocks[..i])
    {
      var combiner := Singleton(f, g, w, starts[i], bits, blocks[i]);
      OneEachExtend(output, f, g, blocks[..i], combiner, blocks[i]);
      assert blocks[..i] + [blocks[i]] == blocks[..i + 1];
      output := output + [combiner];
      i := i + 1;
    }
    assert blocks[..i] == blocks;
  }

  /** A combiner not yet listed, holding `x` alone, extends the list by one. */
  lemma OneEachExtend(output: seq<Combiner>, f: Family, g: Generation, blocks: seq<Cidr>, b: Combiner, x: Cidr)
    requires OneEach(output, f, g, blocks) && b !in output
    requires b.family == f && b.generation == g && b.Valid() && b.cidrs == [x]
    ensures OneEach(output + [b], f, g, blocks + [x])
  {
    var s := output + [b];
    assert forall k :: 0 <= k < |output| ==> s[k] == output[k];
  }

  ghost predicate BlocksAt(w: nat, blocks: seq<Cidr>, starts: seq<nat>, bits: nat)
  {
    |starts| == |blocks| && forall k :: 0 <= k < |blocks| ==> Valid(w, blocks[k]) && Len(w, blocks[k]) == bits && blocks[k].prefix == starts[k]
  }

  /** `with_capacity(1)` and one `push` of the block starting at `p`. */
  method Singleton(f: Family, g: Generation, w: nat, p: nat, bits: nat, ghost block: Cidr) returns (b: Combiner)
    requires w == Width(f) && Valid(w, block) && Len(w, block) == bits && block.prefix == p
    ensures fresh(b) && b.family == f && b.generation == g && b.Valid() && b.cidrs == [block]
  {
    Aligned(w, block);
    b := new Combiner(f, g);
    var x := MakeBlock(w, p, bits, g);
    Unique(w, x, block);
    var panicked := b.Push(x);
  }

  /**
   * The even path of `divide_by`: one fresh combiner per address of `step_by(size / n)`,
   * each holding the block of length `len + log2 n` starting there.
   */
  method EvenPath(f: Family, g: Generation, w: nat, c: Cidr, n: nat, d: nat) returns (output: seq<Combiner>)
    requires w == Width(f) && Valid(w, c) && IsPow2(n) && n <= Size(w, c) && d == Size(w, c) / n
    ensures OneEach(output, f, g, Parts(w, c, n))
  {
    var len := GetBits(w, c);
    var bits := len + Log2(n);
    EvenStep(w, c, n);
    var starts := Starts(f, c, d);
    PartsStart(w, c, n, d, starts);
    output := OnePerBlock(f, g, w, starts, bits, Parts(w, c, n));
  }

  /** The addresses `step_by(size / n)` visits are the first addresses of the `n` parts. */
  lemma PartsStart(w: nat, c: Cidr, n: nat, d: nat, starts: seq<nat>)
    requires Valid(w, c) && IsPow2(n) && n <= Size(w, c) && 1 <= d == Size(w, c) / n
    requires starts == StepBy(Range(c.prefix, Size(w, c)), d)
    ensures Len(w, c) + Log2(n) <= w && BlocksAt(w, Parts(w, c, n), starts, Len(w, c) + Log2(n))
  {
    var bits := Len(w, c) + Log2(n);
    EvenStep(w, c, n);
    assert Parts(w, c, n) == Tiles(w, c, bits);
    TilesStart(w, c, bits, starts);
  }

  /** The addresses `step_by(2^(w - bits))` visits are the first addresses of the tiles. */
  lemma TilesStart(w: nat, c: Cidr, bits: nat, starts: seq<nat>)
    requires Valid(w, c) && Len(w, c) <= bits <= w
    requires starts == StepBy(Range(c.prefix, Size(w, c)), Pow2(w - bits))
    ensures BlocksAt(w, Tiles(w, c, bits), starts, bits)
  {
    StartsAreTiles(w, c, bits, starts);
    var t := Tiles(w, c, bits);
    forall k | 0 <= k < |t|
      ensures Valid(w, t[k]) && Len(w, t[k]) == bits && t[k].prefix == starts[k]
    {
      assert t[k] == Tile(w, c, bits, k);
    }
  }

  /** The first address of every listed block is covered by the list. */
  lemma PrefixesCovered(w: nat, s: seq<Cidr>)
    requires AllValid(w, s)
    ensures forall j :: 0 <= j < |s| ==> Covers(w, s, s[j].prefix)
  {
    forall j | 0 <= j < |s|
      ensures Covers(w, s, s[j].prefix)
    {
      assert s[j].prefix <= s[j].prefix <= Last(w, s[j]);
    }
  }

  /**
   * `push` of a block whose first address the combiner does not cover yet: no listed block
   * has the same prefix, so even the panicking IPv6 comparison never fires.
   */
  method PushUncovered(b: Combiner, x: Cidr)
    requires b.Valid() && Valid(Width(b.family), x) && !Covers(Width(b.family), b.cidrs, x.prefix)
    modifies b
    ensures b.Valid()
    ensures forall a :: Covers(Width(b.family), b.cidrs, a) <==> Covers(Width(b.family), old(b.cidrs), a) || InBlock(Width(b.family), x, a)
  {
    PrefixesCovered(Width(b.family), b.cidrs);
    var panicked := b.Push(x);
  }

  /** `new(ip, 128)` / `from_prefix_and_bits(ip, 32)`: the block holding the one address `a`. */
  method HostBlock(w: nat, a: nat, g: Generation) returns (x: Cidr)
    requires a < Pow2(w)
    ensures Valid(w, x) && Len(w, x) == w && x.prefix == a
    ensures forall b :: InBlock(w, x, b) <==> b == a
  {
    x := MakeBlock(w, a, w, g);
    assert Size(w, x) == 1;
  }

  /** `push(new(ip, 128))` / `push(from_prefix_and_bits(ip, 32))`: the next address joins the run. */
  method PushAddress(b: Combiner, ghost lo: nat, a: nat)
    requires a < Pow2(Width(b.family)) && lo <= a && Holds(Width(b.family), b, lo, a)
    modifies b
    ensures Holds(Width(b.family), b, lo, a + 1)
  {
    var x := HostBlock(Width(b.family), a, b.generation);
    ghost var before := b.cidrs;
    PushUncovered(b, x);
    RunGrows(Width(b.family), before, b.cidrs, x, lo, a);
  }

  /** Adding the one-address block of `a` to a list covering `[lo, a)` covers `[lo, a + 1)`. */
  lemma RunGrows(w: nat, s: seq<Cidr>, t: seq<Cidr>, x: Cidr, lo: nat, a: nat)
    requires AllValid(w, s) && AllValid(w, t) && Valid(w, x) && lo <= a
    requires forall b: nat :: Covers(w, s, b) <==> lo <= b < a
    requires forall b :: InBlock(w, x, b) <==> b == a
    requires forall b :: Covers(w, t, b) <==> Covers(w, s, b) || InBlock(w, x, b)
    ensures forall b: nat :: Covers(w, t, b) <==> lo <= b < a + 1
  {
  }

  /** In a chain, a block's first address lies in none of the blocks before it. */
  lemma ChainPrefixFresh(w: nat, s: seq<Cidr>, j: nat)
    requires Chain(w, s) && j < |s|
    ensures AllValid(w, s[..j]) && !Covers(w, s[..j], s[j].prefix)
  {
    assert AllValid(w, s[..j]);
    if Covers(w, s[..j], s[j].prefix) {
      var i :| 0 <= i < j && s[..j][i].prefix <= s[j].prefix <= Last(w, s[..j][i]);
      ChainApart(w, s, i, j);
      assert false;
    }
  }

  /**
   * The `last_mut` step: the addresses left over in `rest` are pushed, block by block, onto
   * the last full combiner, which then holds the whole run from `lo` to `hi`.
   */
  method Spill(last: Combiner, rest: seq<Cidr>, ghost lo: nat, ghost mid: nat, ghost hi: nat)
    requires lo <= mid <= hi && Holds(Width(last.family), last, lo, mid) && Normal(Width(last.family), rest)
    requires forall a: nat :: Covers(Width(last.family), rest, a) <==> mid <= a < hi
    modifies last
    ensures Holds(Width(last.family), last, lo, hi)
  {
    var w := Width(last.family);
    var j := 0;
    while j < |rest|
      invariant 0 <= j <= |rest| && last.Valid() && Spilled(w, last.cidrs, rest, j, lo, mid)
    {
      MoveOne(w, last, rest, j, lo, mid, hi);
      j := j + 1;
    }
    assert rest[..j] == rest;
    JoinRuns(w, last.cidrs, rest, lo, mid, hi);
  }

  /** One `last_combiner.push(cidr)` of the spill. */
  method MoveOne(w: nat, last: Combiner, rest: seq<Cidr>, j: nat, ghost lo: nat, ghost mid: nat, ghost hi: nat)
    requires w == Width(last.family) && Normal(w, rest) && j < |rest|
    requires forall a: nat :: Covers(w, rest, a) <==> mid <= a < hi
    requires last.Valid() && Spilled(w, last.cidrs, rest, j, lo, mid)
    modifies last
    ensures last.Valid() && Spilled(w, last.cidrs, rest, j + 1, lo, mid)
  {
    SpillFresh(w, rest, j, mid, hi);
    assert !Covers(w, last.cidrs, rest[j].prefix);
    PushUncovered(last, rest[j]);
    CoversSnoc(w, rest, j);
  }

  /** The blocks of `s` cover `[lo, mid)` and the first `j` blocks of `rest`. */
  ghost predicate Spilled(w: nat, s: seq<Cidr>, rest: seq<Cidr>, j: nat, lo: nat, mid: nat)
    requires AllValid(w, s) && AllValid(w, rest) && j <= |rest|
  {
    AllValid(w, rest[..j]) && forall a: nat :: Covers(w, s, a) <==> lo <= a < mid || Covers(w, rest[..j], a)
  }

  /** The next leftover block starts past `mid` and outside the blocks already moved. */
  lemma SpillFresh(w: nat, rest: seq<Cidr>, j: nat, mid: nat, hi: nat)
    requires Chain(w, rest) && j < |rest|
    requires forall a: nat :: Covers(w, rest, a) <==> mid <= a < hi
    ensures mid <= rest[j].prefix && AllValid(w, rest[..j]) && !Covers(w, rest[..j], rest[j].prefix)
  {
    PrefixesCovered(w, rest);
    ChainPrefixFresh(w, rest, j);
  }

  /** Growing a prefix of a block list by one block adds that block's addresses. */
  lemma CoversSnoc(w: nat, s: seq<Cidr>, j: nat)
    requires AllValid(w, s) && j < |s|
    ensures AllValid(w, s[..j]) && AllValid(w, s[..j + 1])
    ensures forall a :: Covers(w, s[..j + 1], a) <==> Covers(w, s[..j], a) || InBlock(w, s[j], a)
  {
    assert s[..j + 1] == s[..j] + [s[j]];
    forall a
      ensures Covers(w, s[..j + 1], a) <==> Covers(w, s[..j], a) || InBlock(w, s[j], a)
    {
      CoversJoin(w, s[..j], [s[j]], a);
      CoversOne(w, s[j], a);
    }
  }

  /** Two adjacent runs `[lo, mid)` and `[mid, hi)` make the run `[lo, hi)`. */
  lemma JoinRuns(w: nat, s: seq<Cidr>, rest: seq<Cidr>, lo: nat, mid: nat, hi: nat)
    requires AllValid(w, s) && AllValid(w, rest) && lo <= mid <= hi
    requires forall a: nat :: Covers(w, s, a) <==> lo <= a < mid || Covers(w, rest, a)
    requires forall a: nat :: Covers(w, rest, a) <==> mid <= a < hi
    ensures forall a: nat :: Covers(w, s, a) <==> lo <= a < hi
  {
  }

  /** Handing a list over extends the runs by one. */
  lemma RunsSnoc(w: nat, snap: seq<seq<Cidr>>, lo: nat, bounds: seq<nat>, s: seq<Cidr>, hi: nat)
    requires Runs(w, snap, lo, bounds) && Run(w, s, lo + bounds[|snap|], lo + hi)
    ensures Runs(w, snap + [s], lo, bounds + [hi])
  {
    var o := snap + [s];
    var t := bounds + [hi];
    forall k | 0 <= k < |o|
      ensures Run(w, o[k], lo + t[k], lo + t[k + 1])
    {
      if k < |snap| {
        assert o[k] == snap[k] && t[k] == bounds[k] && t[k + 1] == bounds[k + 1];
      }
    }
  }

  lemma HandedSnoc(output: seq<Combiner>, snap: seq<seq<Cidr>>, f: Family, g: Generation, b: Combiner)
    requires Handed(output, snap, f, g) && b.family == f && b.generation == g
    ensures Handed(output + [b], snap + [b.cidrs], f, g)
  {
    assert forall k :: 0 <= k < |output| ==> (output + [b])[k] == output[k];
  }

  lemma SpacedSnoc(s: seq<nat>, d: nat)
    requires 1 <= |s| && Spaced(s, d)
    ensures Spaced(s + [s[|s| - 1] + d], d)
  {
    assert forall k :: 0 <= k < |s| ==> (s + [s[|s| - 1] + d])[k] == s[k];
  }

  lemma DistinctSnoc(s: seq<Combiner>, b: Combiner)
    requires Distinct(s) && b !in s
    ensures Distinct(s + [b])
  {
  }

  /** An empty combiner holds the empty run. */
  lemma EmptyHolds(w: nat, b: Combiner, lo: int)
    requires b.cidrs == []
    ensures Holds(w, b, lo, lo)
  {
  }

  /**
   * One turn of `for ip in iter`: take the next address, push it, and hand the combiner
   * over once it holds `d` addresses (`i == d`).
   */
  method TakeOne(w: nat, f: Family, g: Generation, lo: nat, d: nat, cap: Option<nat>, output: seq<Combiner>, current: Combiner,
                 ghost snap: seq<seq<Cidr>>, ghost bounds: seq<nat>, i: nat, ghost top: nat, a: nat)
    requires Filling(w, f, g, lo, d, cap, output, current, snap, bounds, i, top)
    requires i < d || !Open(|output|, cap)
    requires a == lo + top && a < Pow2(w)
    modifies current
    ensures Filling(w, f, g, lo, d, cap, output, current, snap, bounds, i + 1, top + 1)
  {
    PushAddress(current, lo + bounds[|output|], a);
  }

  /** A turn with `i == d`: the address completes the current combiner, which is handed over. */
  method TakeLast(w: nat, f: Family, g: Generation, lo: nat, d: nat, cap: Option<nat>, output: seq<Combiner>, current: Combiner,
                  ghost snap: seq<seq<Cidr>>, ghost bounds: seq<nat>, ghost top: nat, a: nat)
    returns (output': seq<Combiner>, current': Combiner, ghost snap': seq<seq<Cidr>>, ghost bounds': seq<nat>)
    requires Filling(w, f, g, lo, d, cap, output, current, snap, bounds, d, top) && Open(|output|, cap)
    requires a == lo + top && a < Pow2(w)
    modifies current
    ensures Filling(w, f, g, lo, d, cap, output', current', snap', bounds', 1, top + 1)
    ensures output' == output + [current] && fresh(current')
  {
    PushAddress(current, lo + bounds[|output|], a);
    current' := new Combiner(f, g);
    output' := output + [current];
    snap' := snap + [current.cidrs];
    bounds' := bounds + [bounds[|output|] + d];
    HandOver(w, f, g, lo, d, cap, output, current, current', snap, bounds, top);
  }

  /** The bookkeeping of a hand-over: the full combiner joins the output, a fresh one starts. */
  lemma HandOver(w: nat, f: Family, g: Generation, lo: nat, d: nat, cap: Option<nat>, output: seq<Combiner>,
                 current: Combiner, next: Combiner, snap: seq<seq<Cidr>>, bounds: seq<nat>, top: nat)
    requires w == Width(f) && 1 <= d && Open(|output|, cap)
    requires |bounds| == |output| + 1 && bounds[0] == 0 && Spaced(bounds, d) && top + 1 == bounds[|output|] + d
    requires Distinct(output) && current !in output && current.family == f && current.generation == g
    requires Holds(w, current, lo + bounds[|output|], lo + top + 1)
    requires Handed(output, snap, f, g) && Runs(w, snap, lo, bounds)
    requires next.cidrs == [] && next != current && next !in output && next.family == f && next.generation == g
    ensures Filling(w, f, g, lo, d, cap, output + [current], next, snap + [current.cidrs], bounds + [bounds[|output|] + d], 1, top + 1)
  {
    RunsSnoc(w, snap, lo, bounds, current.cidrs, bounds[|output|] + d);
    HandedSnoc(output, snap, f, g, current);
    SpacedSnoc(bounds, d);
    DistinctSnoc(output, current);
    EmptyHolds(w, next, lo + top + 1);
  }

  /**
   * The uneven path of `divide_by`, as written: every address becomes a one-address block
   * pushed onto the current combiner, which is handed over after `d` pushes; the leftover
   * addresses, fewer than `d`, are pushed onto the last combiner handed over. So there is one
   * combiner for every whole run of `d` addresses: `size / d` of them, which can be more than
   * the `n` asked for.
   */
  method Buckets(it: Cursor, g: Generation, d: nat, cap: Option<nat>) returns (output: seq<Combiner>)
    requires it.Valid() && it.next == 0 && it.back == it.size && 1 <= d <= it.size
    requires cap.Some? ==> 1 <= cap.value && cap.value * d <= it.size
    modifies it
    ensures Divided(Width(it.family), output, it.family, g, it.from, it.size, d, if cap.None? then it.size / d else cap.value)
  {
    var w := Width(it.family);
    var current, i;
    ghost var snap, bounds;
    output, current, snap, bounds, i := Fill(it, g, d, cap);
    var q := |output|;
    EvenlySpaced(bounds, 0, d);
    RunsAt(w, snap, it.from, bounds, d);
    BucketCount(it.size, d, cap, q, i);
    Spill(output[q - 1], current.cidrs, it.from + bounds[q - 1], it.from + bounds[q], it.from + it.size);
    Assemble(w, output, it.family, g, it.from, it.size, d, q, snap);
  }

  /**
   * The handed-over combiners form a division once the last one has taken in the leftover
   * addresses: the others still hold their runs of `d` addresses.
   */
  lemma Assemble(w: nat, output: seq<Combiner>, f: Family, g: Generation, lo: nat, size: nat, d: nat, count: nat, snap: seq<seq<Cidr>>)
    requires 1 <= count && |output| == count && |snap| == count && Distinct(output)
    requires forall k :: 0 <= k < count ==> output[k].family == f && output[k].generation == g
    requires forall k :: 0 <= k < count - 1 ==> output[k].cidrs == snap[k]
    requires forall k :: 0 <= k < count ==> Run(w, snap[k], lo + k * d, lo + (k + 1) * d)
    requires Holds(w, output[count - 1], lo + (count - 1) * d, lo + size)
    ensures Divided(w, output, f, g, lo, size, d, count)
  {
  }

  /** How many combiners the uneven path hands over, with and without a cap. */
  lemma BucketCount(n: nat, d: nat, cap: Option<nat>, q: nat, i: nat)
    requires 1 <= d <= n && 1 <= i && n == q * d + i - 1
    requires i <= d || !Open(q, cap)
    requires cap.Some? ==> 1 <= cap.value && cap.value * d <= n && q <= cap.value
    ensures 1 <= q && q == if cap.None? then n / d else cap.value
  {
    if cap.None? {
      DivModUnique(n, d, q, i - 1);
    } else if q < cap.value {
      assert d * (q + 1) <= d * cap.value by {
        MulMonoLeft(d, q + 1, cap.value);
      }
    }
  }

  /**
   * The loop of `divide_by`'s uneven path: every address of the cursor goes to the current
   * combiner, and a fresh one is started after every `d` addresses.
   */
  method Fill(it: Cursor, g: Generation, d: nat, cap: Option<nat>)
    returns (output: seq<Combiner>, current: Combiner, ghost snap: seq<seq<Cidr>>, ghost bounds: seq<nat>, i: nat)
    requires it.Valid() && it.next == 0 && it.back == it.size && 1 <= d <= it.size
    modifies it
    ensures it.Valid() && it.next == it.size && it.back == it.size
    ensures Filling(Width(it.family), it.family, g, it.from, d, cap, output, current, snap, bounds, i, it.size)
    ensures fresh(current) && forall k :: 0 <= k < |output| ==> fresh(output[k])
  {
    var w := Width(it.family);
    output := [];
    current := new Combiner(it.family, g);
    i := 1;
    bounds := [0];
    snap := [];
    EmptyHolds(w, current, it.from);
    var done := false;
    while !done
      invariant it.Valid() && it.back == it.size
      invariant Filling(w, it.family, g, it.from, d, cap, output, current, snap, bounds, i, it.next)
      invariant fresh(current) && forall k :: 0 <= k < |output| ==> fresh(output[k])
      invariant done ==> it.next == it.size
      decreases it.size - it.next, !done
    {
      output, current, snap, bounds, i, done := FillStep(it, g, d, cap, output, current, snap, bounds, i);
    }
  }

  /** One turn of `Fill`'s loop: take the cursor's next address, if any. */
  method FillStep(it: Cursor, g: Generation, d: nat, cap: Option<nat>, output: seq<Combiner>, current: Combiner,
                  ghost snap: seq<seq<Cidr>>, ghost bounds: seq<nat>, i: nat)
    returns (output': seq<Combiner>, current': Combiner, ghost snap': seq<seq<Cidr>>, ghost bounds': seq<nat>, i': nat, done: bool)
    requires it.Valid() && it.back == it.size
    requires Filling(Width(it.family), it.family, g, it.from, d, cap, output, current, snap, bounds, i, it.next)
    modifies it, current
    ensures it.Valid() && it.back == it.size
    ensures Filling(Width(it.family), it.family, g, it.from, d, cap, output', current', snap', bounds', i', it.next)
    ensures current' == current || fresh(current')
    ensures output' == output || output' == output + [current]
    ensures if done then it.next == it.size else old(it.next) < it.next
  {
    ghost var top := it.next;
    var ip := it.Next();
    LimitIsPow2(it.family);
    output', current', snap', bounds', i', done := Route(Width(it.family), it.family, g, it.from, d, cap, output, current, snap, bounds, i, top, ip);
  }

  /** Where the address `ip` (if any) goes: onto the current combiner, or onto a fresh one. */
  method Route(w: nat, f: Family, g: Generation, lo: nat, d: nat, cap: Option<nat>, output: seq<Combiner>, current: Combiner,
               ghost snap: seq<seq<Cidr>>, ghost bounds: seq<nat>, i: nat, ghost top: nat, ip: Option<nat>)
    returns (output': seq<Combiner>, current': Combiner, ghost snap': seq<seq<Cidr>>, ghost bounds': seq<nat>, i': nat, done: bool)
    requires Filling(w, f, g, lo, d, cap, output, current, snap, bounds, i, top)
    requires ip.Some? ==> ip.value == lo + top && ip.value < Pow2(w)
    modifies current
    ensures done <==> ip.None?
    ensures Filling(w, f, g, lo, d, cap, output', current', snap', bounds', i', if done then top else top + 1)
    ensures current' == current || fresh(current')
    ensures output' == output || output' == output + [current]
  {
    output', current', snap', bounds', i', done := output, current, snap, bounds, i, false;
    if ip.None? {
      done := true;
    } else if i == d && Open(|output|, cap) {
      output', current', snap', bounds' := TakeLast(w, f, g, lo, d, cap, output, current, snap, bounds, top, ip.value);
      i' := 1;
    } else {
      TakeOne(w, f, g, lo, d, cap, output, current, snap, bounds, i, top, ip.value);
      i' := i + 1;
    }
  }

  /** With evenly spaced bounds, list `k` covers the `k`-th run of `d` addresses. */
  lemma RunsAt(w: nat, snap: seq<seq<Cidr>>, lo: nat, bounds: seq<nat>, d: nat)
    requires Runs(w, snap, lo, bounds)
    requires forall k :: 0 <= k < |bounds| ==> bounds[k] == k * d
    ensures forall k :: 0 <= k < |snap| ==> Run(w, snap[k], lo + k * d, lo + (k + 1) * d)
  {
    forall k | 0 <= k < |snap|
      ensures Run(w, snap[k], lo + k * d, lo + (k + 1) * d)
    {
      assert bounds[k] == k * d && bounds[k + 1] == (k + 1) * d;
    }
  }
  //
  // `divide_by`.
  //

  lemma Pow2Of64()
    ensures Pow2(64) == U64_LIMIT
  {
    Pow2Of32();
    Pow2Double(32, 0x1_0000_0000);
  }

  /**
   * The step `d` of the transmute IPv6 separator, computed from the `(u128, bool)` size:
   * `u128::MAX / n + 1` on the even path and `u128::MAX / n` on the uneven one when the block
   * is the whole space. Either way it is the true quotient `size / n`.
   */
  function WideStep(c: Cidr, n: nat, even: bool): (d: nat)
    requires Valid(128, c) && 2 <= n <= Size(128, c) && (even <==> IsPow2(n))
    ensures d == Size(128, c) / n
  {
    var size := WideSize(c);
    assert IsPow2(Size(128, c)) by {
      Log2OfPow2(128 - Len(128, c));
    }
    if size.1 then
      // The whole space: `m - 1` is `u128::MAX`.
      var m := Size(128, c);
      WideQuotient(m, n, even);
      if even then Quot(m - 1, n) + 1 else Quot(m - 1, n)
    else
      Quot(size.0, n)
  }

  /**
   * Unsigned integer division, named so that the quotients of `divide_by` stay terms the
   * solver does not unfold into nonlinear arithmetic unless a proof asks for it.
   */
  function Quot(a: nat, b: nat): nat
    requires 1 <= b
  {
    a / b
  }

  /** For `m` a power of two: `(m - 1) / n + 1 == m / n` if `n` is one too, else `(m - 1) / n == m / n`. */
  lemma WideQuotient(m: nat, n: nat, even: bool)
    requires IsPow2(m) && 2 <= n <= m && (even <==> IsPow2(n))
    ensures even ==> (m - 1) / n + 1 == m / n
    ensures !even ==> (m - 1) / n == m / n
  {
    var k := Log2(m);
    if even {
      QuotientAtPow2(k, n);
    } else {
      EvenSplit(k, n);
      DivModUnique(m, n, m / n, m % n);
      QuotientBelow(m, n);
    }
  }

  /**
   * `n == 0 || n > size`, the refusal test: on the transmute IPv6 block through the
   * `(u128, bool)` size, which never refuses the whole space, since `n` is a `usize`.
   */
  function Refuses(f: Family, g: Generation, c: Cidr, n: nat): (b: bool)
    requires Valid(Width(f), c) && n < USIZE_LIMIT
    ensures b <==> n == 0 || n > Size(Width(f), c)
  {
    if f == IPv6 && g == Transmute then
      n == 0 || (!WideSize(c).1 && n > WideSize(c).0)
    else
      n == 0 || n > Size(Width(f), c)
  }

  /**
   * The even-path test: `n` is a power of two. Where the source divides exactly, its
   * `d * n == size` test means that. The older IPv6 separators test whether the `f64` value
   * of `log2 n` is whole instead, which also holds for some larger `n` that are not powers
   * of two (2^49 + 1 among them); the exact test stands in for it here.
   */
  function EvenTest(f: Family, g: Generation, c: Cidr, n: nat): (b: bool)
    requires Valid(Width(f), c) && 1 <= n <= Size(Width(f), c)
    ensures b <==> IsPow2(n)
  {
    BlockSplit(Width(f), c, n);
    if f == IPv6 && g != Newest then IsPow2(n)
    else (Size(Width(f), c) / n) * n == Size(Width(f), c)
  }

  /** The number of combiners `divide_by` returns, as written: one per whole run of `size / n`. */
  function PartCount(size: nat, n: nat): nat
    requires 1 <= n <= size
  {
    size / (size / n)
  }

  /** The count is never below `n`, and is exactly `n` when `n` divides the size. */
  lemma PartCountBounds(size: nat, n: nat)
    requires 1 <= n <= size
    ensures 1 <= size / n && PartCount(size, n) >= n
  {
    var d := size / n;
    DivModUnique(size, n, d, size % n);
    assert d >= 1;
    var q := size / d;
    DivModUnique(size, d, q, size % d);
    if q < n {
      MulMonoLeft(d, q + 1, n);
      assert false;
    }
  }

  /** When `n` is a power of two the count is `n`. */
  lemma EvenCount(w: nat, c: Cidr, n: nat)
    requires Valid(w, c) && IsPow2(n) && n <= Size(w, c)
    ensures PartCount(Size(w, c), n) == n
  {
    EvenProduct(w, c, n);
    var size := Size(w, c);
    var d := size / n;
    assert n * d == size;
    DivModUnique(size, d, n, 0);
  }

  /** A combiner holding one block holds that block's addresses. */
  lemma SingleHolds(w: nat, b: Combiner, x: Cidr)
    requires Valid(w, x) && b.cidrs == [x]
    ensures Holds(w, b, x.prefix, x.prefix + Size(w, x))
  {
    forall a: nat
      ensures Covers(w, b.cidrs, a) <==> x.prefix <= a < x.prefix + Size(w, x)
    {
      if x.prefix <= a < x.prefix + Size(w, x) {
        assert b.cidrs[0].prefix <= a <= Last(w, b.cidrs[0]);
      }
    }
  }

  /** The even path hands out the parts, which are runs of `size / n` addresses each. */
  lemma EvenDivided(w: nat, output: seq<Combiner>, f: Family, g: Generation, c: Cidr, n: nat)
    requires Valid(w, c) && IsPow2(n) && n <= Size(w, c)
    requires |output| == n && Distinct(output)
    requires forall k :: 0 <= k < n ==> output[k].family == f && output[k].generation == g
    requires forall k :: 0 <= k < n ==> output[k].cidrs == [Parts(w, c, n)[k]]
    ensures Divided(w, output, f, g, c.prefix, Size(w, c), Quot(Size(w, c), n), n)
  {
    var d := Quot(Size(w, c), n);
    forall k | 0 <= k < n
      ensures Holds(w, output[k], c.prefix + k * d, c.prefix + (k + 1) * d)
    {
      PartHolds(w, output[k], c, n, k);
    }
    EvenProduct(w, c, n);
    MulSucc(n - 1, d);
  }

  /** Part `k` starts `k` steps of `size / n` into the block and runs for one step. */
  lemma PartHolds(w: nat, b: Combiner, c: Cidr, n: nat, k: nat)
    requires Valid(w, c) && IsPow2(n) && n <= Size(w, c) && k < n
    requires b.cidrs == [Parts(w, c, n)[k]]
    ensures Holds(w, b, c.prefix + k * Quot(Size(w, c), n), c.prefix + (k + 1) * Quot(Size(w, c), n))
  {
    var d := Quot(Size(w, c), n);
    var bits := Len(w, c) + Log2(n);
    EvenStep(w, c, n);
    var x := Parts(w, c, n)[k];
    assert x == Tile(w, c, bits, k);
    SingleHolds(w, b, x);
    MulSucc(k, d);
  }

  /** `n` steps of `size / n` make up the block when `n` is a power of two. */
  lemma EvenProduct(w: nat, c: Cidr, n: nat)
    requires Valid(w, c) && IsPow2(n) && n <= Size(w, c)
    ensures n * Quot(Size(w, c), n) == Size(w, c)
  {
    var size := Size(w, c);
    var q := size / n;
    assert q * n == size by {
      Aligned(w, c);
      EvenSplit(w - Len(w, c), n);
    }
    assert Quot(size, n) == q;
  }

  /**
   * `output` is `c` divided by `n` into `count` combiners: runs of `size / n` addresses, the
   * last taking the rest; and when `n` is a power of two, the `n` parts themselves.
   */
  ghost predicate DividedBy(f: Family, g: Generation, c: Cidr, n: nat, output: seq<Combiner>, count: nat)
    requires Valid(Width(f), c) && 1 <= n <= Size(Width(f), c)
    reads output
  {
    var size := Size(Width(f), c);
    && Divided(Width(f), output, f, g, c.prefix, size, Quot(size, n), count)
    && (IsPow2(n) ==> |output| == n && forall k :: 0 <= k < n ==> output[k].cidrs == [Parts(Width(f), c, n)[k]])
  }

  /**
   * `divide_by`, for either family and generation; `exact` caps the uneven path at `n`
   * combiners (the corrected version), otherwise it runs as written.
   */
  method Divide(f: Family, g: Generation, c: Cidr, n: nat, exact: bool) returns (r: Option<seq<Combiner>>)
    requires Valid(Width(f), c) && n < USIZE_LIMIT
    ensures r.None? <==> n == 0 || n > Size(Width(f), c)
    ensures r.Some? ==> 1 <= n <= Size(Width(f), c)
    ensures r.Some? ==> DividedBy(f, g, c, n, r.value, if exact then n else PartCount(Size(Width(f), c), n))
  {
    var w := Width(f);
    var size := Size(w, c);
    if Refuses(f, g, c, n) {
      return None;
    }
    if n == 1 && !(f == IPv4 && g == Transmute) {
      var output := Whole(f, g, c);
      Log2OfPow2(0);
      EvenCount(w, c, 1);
      return Some(output);
    }
    var output := Split(f, g, c, n, exact);
    r := Some(output);
  }

  /** The rest of `divide_by` once `n` is accepted: the even path or the uneven one. */
  method Split(f: Family, g: Generation, c: Cidr, n: nat, exact: bool) returns (output: seq<Combiner>)
    requires Valid(Width(f), c) && 1 <= n <= Size(Width(f), c) && (n == 1 ==> f == IPv4 && g == Transmute)
    ensures DividedBy(f, g, c, n, output, if exact then n else PartCount(Size(Width(f), c), n))
  {
    var size := Size(Width(f), c);
    var even := EvenTest(f, g, c, n);
    var d := if f == IPv6 && g == Transmute then WideStep(c, n, even) else Quot(size, n);
    if even {
      output := EvenCase(f, g, c, n, d);
      EvenCount(Width(f), c, n);
    } else {
      output := UnevenCase(f, g, c, n, d, exact);
    }
  }

  /** `n == 1`: one combiner holding the block itself (`with_capacity(1)` and one `push`). */
  method Whole(f: Family, g: Generation, c: Cidr) returns (output: seq<Combiner>)
    requires Valid(Width(f), c)
    ensures DividedBy(f, g, c, 1, output, 1)
  {
    var b := new Combiner(f, g);
    var panicked := b.Push(c);
    output := [b];
    WholeDivided(f, g, c, output);
  }

  lemma WholeDivided(f: Family, g: Generation, c: Cidr, output: seq<Combiner>)
    requires Valid(Width(f), c) && |output| == 1
    requires output[0].cidrs == [c] && output[0].family == f && output[0].generation == g
    ensures DividedBy(f, g, c, 1, output, 1)
  {
    OneWhole(Width(f), f, g, c, output);
  }

  /** One combiner holding the block is the block divided into one part. */
  lemma OneWhole(w: nat, f: Family, g: Generation, c: Cidr, output: seq<Combiner>)
    requires Valid(w, c) && |output| == 1
    requires output[0].cidrs == [c] && output[0].family == f && output[0].generation == g
    ensures Divided(w, output, f, g, c.prefix, Size(w, c), Quot(Size(w, c), 1), 1)
    ensures IsPow2(1) && Parts(w, c, 1) == [c]
  {
    var size := Size(w, c);
    assert Quot(size, 1) == size;
    assert Divided(w, output, f, g, c.prefix, size, size, 1) by {
      SingleHolds(w, output[0], c);
    }
    assert Parts(w, c, 1) == [c] by {
      Log2OfPow2(0);
      TilesOfLen(w, c);
    }
  }

  /** A power of two `n`: the even path, one combiner per part. */
  method EvenCase(f: Family, g: Generation, c: Cidr, n: nat, d: nat) returns (output: seq<Combiner>)
    requires Valid(Width(f), c) && IsPow2(n) && n <= Size(Width(f), c) && d == Size(Width(f), c) / n
    ensures DividedBy(f, g, c, n, output, n)
  {
    output := EvenPath(f, g, Width(f), c, n, d);
    EvenDivided(Width(f), output, f, g, c, n);
  }

  /** `n` steps of `a / n` fit in `a`. */
  lemma QuotientFits(a: nat, n: nat)
    requires 1 <= n <= a
    ensures 1 <= a / n <= a && n * (a / n) <= a
  {
    DivModUnique(a, n, a / n, a % n);
    MulMonoLeft(a / n, 1, n);
  }

  /** Any other `n`: the uneven path, as written or capped at `n` combiners. */
  method UnevenCase(f: Family, g: Generation, c: Cidr, n: nat, d: nat, exact: bool) returns (output: seq<Combiner>)
    requires Valid(Width(f), c) && 1 <= n <= Size(Width(f), c) && !IsPow2(n) && d == Size(Width(f), c) / n
    ensures DividedBy(f, g, c, n, output, if exact then n else PartCount(Size(Width(f), c), n))
  {
    var size := Size(Width(f), c);
    QuotientFits(size, n);
    var it := new Cursor(f, c);
    output := Buckets(it, g, d, if exact then Some(n) else None);
    assert Quot(size, n) == d;
    assert !exact ==> PartCount(size, n) == size / d;
  }

  /**
   * `divide_by` as written: on the uneven path the count is `size / (size / n)`, which can be
   * more than `n`.
   */
  method DivideBy(f: Family, g: Generation, c: Cidr, n: nat) returns (r: Option<seq<Combiner>>)
    requires Valid(Width(f), c) && n < USIZE_LIMIT
    ensures r.None? <==> n == 0 || n > Size(Width(f), c)
    ensures r.Some? ==> 1 <= n <= Size(Width(f), c)
    ensures r.Some? ==> DividedBy(f, g, c, n, r.value, PartCount(Size(Width(f), c), n))
  {
    r := Divide(f, g, c, n, false);
  }

  /**
   * `divide_by` as documented: exactly `n` combiners, the first `n - 1` covering `size / n`
   * addresses each and the last the rest.
   */
  method DivideByExactly(f: Family, g: Generation, c: Cidr, n: nat) returns (r: Option<seq<Combiner>>)
    requires Valid(Width(f), c) && n < USIZE_LIMIT
    ensures r.None? <==> n == 0 || n > Size(Width(f), c)
    ensures r.Some? ==> 1 <= n <= Size(Width(f), c)
    ensures r.Some? ==> DividedBy(f, g, c, n, r.value, n)
  {
    r := Divide(f, g, c, n, true);
  }

  /** A /24 divided by 100: steps of 2 addresses, so 128 combiners instead of 100. */
  lemma TooManyParts()
    ensures 256 / 100 == 2 && PartCount(256, 100) == 128
  {
  }

  //
  // `sub_networks`.
  //

  /** What `sub_networks` ends in: refused, the blocks, or one of its two panics. */
  datatype Subnets =
    | Refused                   // the target length is shorter than the block's
    | Blocks(blocks: seq<Cidr>)
    | PowOverflow               // `2usize.pow(bits - len)` with a difference of 64 or more
    | ZeroStep                  // `size / n` is 0 past the width, and `step_by(0)` panics

  /** The step of `sub_networks`, `size / 2^(bits - len)`: a tile's size, or 0 past the width. */
  lemma SubStep(w: nat, c: Cidr, bits: nat)
    requires Valid(w, c) && Len(w, c) <= bits
    ensures Size(w, c) / Pow2(bits - Len(w, c)) == if bits <= w then Pow2(w - bits) else 0
  {
    var len := Len(w, c);
    Aligned(w, c);
    if bits <= w {
      Pow2Add(bits - len, w - bits);
      assert bits - len + (w - bits) == w - len;
      DivModUnique(Size(w, c), Pow2(bits - len), Pow2(w - bits), 0);
    } else {
      Pow2Mono(w - len, bits - len);
      DivModUnique(Size(w, c), Pow2(bits - len), 0, Size(w, c));
    }
  }

  /** The blocks of length `bits` at the given starts, built with the generation's constructor. */
  method Carve(w: nat, g: Generation, c: Cidr, bits: nat, starts: seq<nat>) returns (blocks: seq<Cidr>)
    requires Valid(w, c) && Len(w, c) <= bits <= w
    requires |starts| == |Tiles(w, c, bits)|
    requires forall k :: 0 <= k < |starts| ==> starts[k] == Tiles(w, c, bits)[k].prefix
    ensures blocks == Tiles(w, c, bits)
  {
    ghost var t := Tiles(w, c, bits);
    blocks := [];
    var i := 0;
    while i < |starts|
      invariant 0 <= i <= |starts| && blocks == t[..i]
    {
      Aligned(w, t[i]);
      var x := MakeBlock(w, starts[i], bits, g);
      Unique(w, x, t[i]);
      blocks := blocks + [x];
      i := i + 1;
    }
  }

  /**
   * `sub_networks(cidr, bits)` as written: `None` below the block's length, the block itself
   * at its own length, and otherwise the `2^(bits - len)` tiles of length `bits`, found by
   * stepping `size / 2^(bits - len)` addresses at a time. Nothing bounds `bits` by the width:
   * past it the step is 0 and `step_by` panics. (The transmute IPv4 version has no equal
   * case; there `n = 1` and a single step of `size` gives the block back all the same.)
   */
  method SubNetworks(f: Family, g: Generation, c: Cidr, bits: nat) returns (r: Subnets)
    requires Valid(Width(f), c) && bits < 256
    ensures r.Refused? <==> bits < Len(Width(f), c)
    ensures r.PowOverflow? <==> Len(Width(f), c) < bits && 64 <= bits - Len(Width(f), c)
    ensures r.ZeroStep? <==> Len(Width(f), c) < bits && bits - Len(Width(f), c) < 64 && Width(f) < bits
    ensures r.Blocks? ==> bits <= Width(f) && r.blocks == Tiles(Width(f), c, bits)
    ensures bits == Len(Width(f), c) ==> r == Blocks([c])
  {
    var w := Width(f);
    var len := GetBits(w, c);
    if len > bits {
      return Refused;
    }
    TilesOfLen(w, c);
    if len == bits && !(f == IPv4 && g == Transmute) {
      return Blocks([c]);
    }
    if bits - len >= 64 {
      return PowOverflow;
    }
    var d := SubStepOf(f, g, c, bits);
    if d == 0 {
      return ZeroStep;
    }
    var blocks := Tiling(f, g, c, bits, d);
    r := Blocks(blocks);
  }

  /**
   * `size / n` for `n = 2^(bits - len)`; the transmute IPv6 version takes `u128::MAX / n + 1`
   * when the size is the whole space.
   */
  method SubStepOf(f: Family, g: Generation, c: Cidr, bits: nat) returns (d: nat)
    requires Valid(Width(f), c) && Len(Width(f), c) <= bits
    ensures d == if bits <= Width(f) then Pow2(Width(f) - bits) else 0
  {
    var w := Width(f);
    var len := Len(w, c);
    var n := Pow2(bits - len);
    SubStep(w, c, bits);
    if f == IPv6 && g == Transmute && bits <= w && len < bits {
      SplitCount(w, c, bits);
      d := WideStep(c, n, true);
    } else {
      d := Quot(Size(w, c), n);
    }
  }

  /** Splitting to a longer length within the width: `2^(bits - len)` is a power of two from 2 to the size. */
  lemma SplitCount(w: nat, c: Cidr, bits: nat)
    requires Valid(w, c) && Len(w, c) < bits <= w
    ensures IsPow2(Pow2(bits - Len(w, c))) && 2 <= Pow2(bits - Len(w, c)) <= Size(w, c)
  {
    var len := Len(w, c);
    Log2OfPow2(bits - len);
    Pow2Mono(1, bits - len);
    Aligned(w, c);
    Pow2Mono(bits - len, w - len);
  }

  /** A tile of length `bits` is no larger than the block it is cut from. */
  lemma TileSize(w: nat, c: Cidr, bits: nat)
    requires Valid(w, c) && Len(w, c) <= bits <= w
    ensures 1 <= Pow2(w - bits) <= Size(w, c)
  {
    Aligned(w, c);
    Pow2Mono(w - bits, w - Len(w, c));
  }

  /** The `step_by(d)` loop of `sub_networks`, with `d` the size of a length-`bits` tile. */
  method Tiling(f: Family, g: Generation, c: Cidr, bits: nat, d: nat) returns (blocks: seq<Cidr>)
    requires Valid(Width(f), c) && Len(Width(f), c) <= bits <= Width(f) && d == Pow2(Width(f) - bits)
    ensures blocks == Tiles(Width(f), c, bits)
  {
    var w := Width(f);
    TileSize(w, c, bits);
    var starts := Starts(f, c, d);
    StartsAreTiles(w, c, bits, starts);
    blocks := Carve(w, g, c, bits, starts);
  }

  /** `sub_networks` with the length bounded by the width: no input panics below 64 split bits. */
  method SubNetworksChecked(f: Family, g: Generation, c: Cidr, bits: nat) returns (r: Subnets)
    requires Valid(Width(f), c) && bits < 256
    ensures r.Refused? <==> bits < Len(Width(f), c) || Width(f) < bits
    ensures r.PowOverflow? <==> Len(Width(f), c) < bits <= Width(f) && 64 <= bits - Len(Width(f), c)
    ensures !r.ZeroStep?
    ensures r.Blocks? ==> r.blocks == Tiles(Width(f), c, bits)
  {
    if bits > Width(f) {
      return Refused;
    }
    r := SubNetworks(f, g, c, bits);
  }

  /** An IPv4 block split to length 33: the as-written version panics, the checked one refuses. */
  method SubNetworksPastWidth(g: Generation, c: Cidr) returns (r: Subnets, fixed: Subnets)
    requires Valid(32, c)
    ensures r == ZeroStep && fixed == Refused
  {
    r := SubNetworks(IPv4, g, c, 33);
    fixed := SubNetworksChecked(IPv4, g, c, 33);
  }
}
