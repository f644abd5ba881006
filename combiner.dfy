/**
 * The block lists kept by `Ipv4CidrCombiner` / `Ipv6CidrCombiner` (module and newest
 * generations; the four `push` bodies are the same algorithm at width 32 or 128): the
 * invariant they keep, what they cover, and the buddy test of the merge cascade.
 */
module BlockLists {
  import opened Bits
  import opened Wrappers
  import opened Cidrs

  predicate AllValid(w: nat, s: seq<Cidr>)
  {
    forall i :: 0 <= i < |s| ==> Valid(w, s[i])
  }

  /** Each block ends before the next one starts: sorted by `cmp` and pairwise disjoint. */
  predicate Chain(w: nat, s: seq<Cidr>)
  {
    AllValid(w, s) && forall i :: 0 <= i < |s| - 1 ==> Last(w, s[i]) < s[i + 1].prefix
  }

  /** Address `a` lies in some block of `s`. */
  ghost predicate Covers(w: nat, s: seq<Cidr>, a: nat)
    requires AllValid(w, s)
  {
    exists i :: 0 <= i < |s| && s[i].prefix <= a <= Last(w, s[i])
  }

  /** `c` lies inside `d`. */
  predicate Within(w: nat, c: Cidr, d: Cidr)
    requires Valid(w, c) && Valid(w, d)
  {
    d.prefix <= c.prefix && Last(w, c) <= Last(w, d)
  }

  /**
   * The merge test of `push`, `c` before `d`: equal lengths `L` and
   * `d.prefix ^ c.prefix == 1 << (w - L)`.
   */
  predicate Buddies(w: nat, c: Cidr, d: Cidr)
    requires Valid(w, c) && Valid(w, d)
  {
    Len(w, c) == Len(w, d) && 1 <= Len(w, c) && Xor(d.prefix, c.prefix, w) == Pow2(w - Len(w, c))
  }

  predicate NoBuddies(w: nat, s: seq<Cidr>)
    requires AllValid(w, s)
  {
    forall i :: 0 <= i < |s| - 1 ==> !Buddies(w, s[i], s[i + 1])
  }

  /** What every combiner list satisfies between calls. */
  predicate Normal(w: nat, s: seq<Cidr>)
  {
    Chain(w, s) && NoBuddies(w, s)
  }

  /** `size`: the sum of the block sizes. */
  function TotalSize(w: nat, s: seq<Cidr>): nat
    requires AllValid(w, s)
  {
    if |s| == 0 then 0 else TotalSize(w, s[..|s| - 1]) + Size(w, s[|s| - 1])
  }

  //
  // Facts about chains.
  //

  /** In a chain every block ends before every later block starts. */
  lemma {:induction false} ChainApart(w: nat, s: seq<Cidr>, i: nat, j: nat)
    requires Chain(w, s) && i < j < |s|
    ensures Last(w, s[i]) < s[j].prefix
    decreases j - i
  {
    if j > i + 1 {
      ChainApart(w, s, i, j - 1);
    }
  }

  /** So a chain is strictly ascending in the block order. */
  lemma ChainSorted(w: nat, s: seq<Cidr>, i: nat, j: nat)
    requires Chain(w, s) && i < j < |s|
    ensures Order(w, s[i], s[j]) == Less
  {
    ChainApart(w, s, i, j);
  }

  /** Every block of a chain before one that is below `x` in the order is below `x` too. */
  lemma BelowAll(w: nat, s: seq<Cidr>, m: nat, x: Cidr)
    requires Chain(w, s) && m < |s| && Valid(w, x) && Order(w, s[m], x) == Less
    ensures forall i :: 0 <= i <= m ==> Order(w, s[i], x) == Less
  {
    forall i | 0 <= i < m
      ensures Order(w, s[i], x) == Less
    {
      ChainSorted(w, s, i, m);
      OrderIsTotal(w, s[i], s[m], x);
    }
  }

  /** A block before one whose prefix is below `x`'s has a prefix below it too. */
  lemma PrefixesBelow(w: nat, s: seq<Cidr>, m: nat, x: Cidr)
    requires Chain(w, s) && m < |s| && s[m].prefix < x.prefix
    ensures forall i :: 0 <= i <= m ==> s[i].prefix < x.prefix
  {
    forall i | 0 <= i < m
      ensures s[i].prefix < x.prefix
    {
      ChainApart(w, s, i, m);
    }
  }

  /** A block after one whose prefix is above `x`'s has a prefix above it too. */
  lemma PrefixesAbove(w: nat, s: seq<Cidr>, m: nat, x: Cidr)
    requires Chain(w, s) && m < |s| && x.prefix < s[m].prefix
    ensures forall i :: m <= i < |s| ==> x.prefix < s[i].prefix
  {
    forall i | m < i < |s|
      ensures x.prefix < s[i].prefix
    {
      ChainApart(w, s, m, i);
    }
  }

  lemma AboveAll(w: nat, s: seq<Cidr>, m: nat, x: Cidr)
    requires Chain(w, s) && m < |s| && Valid(w, x) && Order(w, s[m], x) == Greater
    ensures forall i :: m <= i < |s| ==> Order(w, s[i], x) == Greater
  {
    forall i | m < i < |s|
      ensures Order(w, s[i], x) == Greater
    {
      ChainSorted(w, s, m, i);
      OrderIsTotal(w, x, s[m], s[i]);
      OrderIsTotal(w, s[m], s[i], x);
      OrderIsTotal(w, s[i], x, s[m]);
    }
  }

  lemma ChainSlice(w: nat, s: seq<Cidr>, a: nat, b: nat)
    requires Chain(w, s) && a <= b <= |s|
    ensures Chain(w, s[a..b])
  {
    var t := s[a..b];
    forall i | 0 <= i < |t| - 1
      ensures Last(w, t[i]) < t[i + 1].prefix
    {
      assert t[i] == s[a + i] && t[i + 1] == s[a + i + 1];
    }
  }

  /** Two chains joined, the first ending before the second starts, form a chain. */
  lemma ChainJoin(w: nat, p: seq<Cidr>, q: seq<Cidr>)
    requires Chain(w, p) && Chain(w, q)
    requires |p| > 0 && |q| > 0 ==> Last(w, p[|p| - 1]) < q[0].prefix
    ensures Chain(w, p + q)
  {
    var s := p + q;
    assert AllValid(w, s) by {
      forall i | 0 <= i < |s|
        ensures Valid(w, s[i])
      {
        if i >= |p| {
          assert s[i] == q[i - |p|];
        }
      }
    }
    forall i | 0 <= i < |s| - 1
      ensures Last(w, s[i]) < s[i + 1].prefix
    {
      if i + 1 < |p| {
        assert s[i] == p[i] && s[i + 1] == p[i + 1];
      } else if i + 1 == |p| {
        assert s[i] == p[i] && s[i + 1] == q[0];
      } else {
        assert s[i] == q[i - |p|] && s[i + 1] == q[i - |p| + 1];
      }
    }
  }

  /** Removing blocks keeps the buddy-free property of what remains adjacent. */
  lemma NoBuddiesSlice(w: nat, s: seq<Cidr>, a: nat, b: nat)
    requires AllValid(w, s) && NoBuddies(w, s) && a <= b <= |s|
    ensures AllValid(w, s[a..b]) && NoBuddies(w, s[a..b])
  {
    var t := s[a..b];
    assert forall i :: 0 <= i < |t| ==> t[i] == s[a + i];
  }

  /** Three buddy-free parts with buddy-free seams are buddy-free as a whole. */
  lemma NoBuddiesJoin(w: nat, p: seq<Cidr>, x: Cidr, q: seq<Cidr>)
    requires AllValid(w, p) && AllValid(w, q) && Valid(w, x)
    requires NoBuddies(w, p) && NoBuddies(w, q)
    requires |p| > 0 ==> !Buddies(w, p[|p| - 1], x)
    requires |q| > 0 ==> !Buddies(w, x, q[0])
    ensures AllValid(w, p + [x] + q) && NoBuddies(w, p + [x] + q)
  {
    var s := p + [x] + q;
    assert forall i :: 0 <= i < |p| ==> s[i] == p[i];
    assert s[|p|] == x;
    assert forall i :: |p| < i < |s| ==> s[i] == q[i - |p| - 1];
  }

  //
  // Coverage.
  //

  lemma CoversJoin(w: nat, p: seq<Cidr>, q: seq<Cidr>, a: nat)
    requires AllValid(w, p) && AllValid(w, q)
    ensures AllValid(w, p + q)
    ensures Covers(w, p + q, a) <==> Covers(w, p, a) || Covers(w, q, a)
  {
    var s := p + q;
    assert forall i :: 0 <= i < |p| ==> s[i] == p[i];
    assert forall i :: |p| <= i < |s| ==> s[i] == q[i - |p|];
    if Covers(w, s, a) {
      var i :| 0 <= i < |s| && s[i].prefix <= a <= Last(w, s[i]);
      if i >= |p| {
        assert q[i - |p|] == s[i];
      }
    }
    if Covers(w, q, a) {
      var i :| 0 <= i < |q| && q[i].prefix <= a <= Last(w, q[i]);
      assert s[|p| + i] == q[i];
    }
  }

  lemma CoversOne(w: nat, c: Cidr, a: nat)
    requires Valid(w, c)
    ensures AllValid(w, [c]) && (Covers(w, [c], a) <==> c.prefix <= a <= Last(w, c))
  {
    if c.prefix <= a <= Last(w, c) {
      assert [c][0] == c;
    }
  }

  /** A block inside some block of `s` adds nothing to what `s` covers. */
  lemma CoversWithin(w: nat, s: seq<Cidr>, j: nat, c: Cidr, a: nat)
    requires AllValid(w, s) && j < |s| && Valid(w, c) && Within(w, c, s[j])
    requires c.prefix <= a <= Last(w, c)
    ensures Covers(w, s, a)
  {
  }

  //
  // The buddy test.
  //

  /** `1 << k` on an `n`-bit word, for `k < n`, is `2^k`. */
  lemma ShlOne(k: nat, n: nat)
    requires k < n
    ensures Shl(1, k, n) == Pow2(k)
  {
    Pow2Mono(k, n);
    assert 1 * Pow2(k) == Pow2(k);
    DivModUnique(Pow2(k), Pow2(n), 0, Pow2(k));
  }

  /** The block `push` builds from the lower of two buddies: one bit shorter, same prefix. */
  function Merged(w: nat, c: Cidr): (m: Cidr)
    requires Valid(w, c) && 1 <= Len(w, c)
    ensures Valid(w, m) && Len(w, m) == Len(w, c) - 1
  {
    FromPrefixAndBits(w, c.prefix, Len(w, c) - 1).value
  }

  /**
   * Buddies are the two halves of one block: the second starts where the first ends, the
   * first's prefix is aligned to twice its size (so the strict constructor of the newest
   * generation accepts it too), and the merged block ends where the second ends.
   */
  lemma BuddyMerge(w: nat, c: Cidr, d: Cidr)
    requires Valid(w, c) && Valid(w, d) && c.prefix < d.prefix && Buddies(w, c, d)
    ensures d.prefix == Last(w, c) + 1 && Size(w, d) == Size(w, c)
    ensures c.prefix % Pow2(w - Len(w, Merged(w, c))) == 0
    ensures Merged(w, c).prefix == c.prefix && Last(w, Merged(w, c)) == Last(w, d)
    ensures Size(w, Merged(w, c)) == 2 * Size(w, c)
  {
    var len := Len(w, c);
    var k := w - len;
    XorComm(d.prefix, c.prefix, w);
    XorSingleBit(c.prefix, d.prefix, w, k);
    assert w - (len - 1) == k + 1;
  }

  predicate InBlock(w: nat, c: Cidr, a: nat)
    requires Valid(w, c)
  {
    c.prefix <= a <= Last(w, c)
  }

  /** The merged block covers exactly the addresses of the two halves. */
  lemma MergedCovers(w: nat, c: Cidr, d: Cidr, m: Cidr, a: nat)
    requires Valid(w, c) && Valid(w, d) && Valid(w, m)
    requires m.prefix == c.prefix && d.prefix == Last(w, c) + 1 && Last(w, m) == Last(w, d)
    ensures InBlock(w, m, a) <==> InBlock(w, c, a) || InBlock(w, d, a)
  {
  }

  /** A block followed by another in a chain is not the whole address space. */
  lemma NotWhole(w: nat, c: Cidr, d: Cidr)
    requires Valid(w, c) && Valid(w, d) && Last(w, c) < d.prefix
    ensures 1 <= Len(w, c)
  {
  }

  lemma NotWholeAfter(w: nat, c: Cidr, d: Cidr)
    requires Valid(w, c) && Valid(w, d) && Last(w, c) < d.prefix
    ensures 1 <= Len(w, d)
  {
    if Len(w, d) == 0 {
      DivModUnique(d.prefix, Pow2(w), 0, d.prefix);
    }
  }

  /** The parts of a chain with one block singled out. */
  lemma ChainParts(w: nat, p: seq<Cidr>, x: Cidr, q: seq<Cidr>)
    requires Chain(w, p + [x] + q)
    ensures Chain(w, p) && Chain(w, q) && Valid(w, x)
    ensures |p| > 0 ==> Last(w, p[|p| - 1]) < x.prefix
    ensures |q| > 0 ==> Last(w, x) < q[0].prefix
  {
    var s := p + [x] + q;
    ChainSlice(w, s, 0, |p|);
    ChainSlice(w, s, |p| + 1, |s|);
    assert s[..|p|] == p && s[|p| + 1..] == q && s[|p|] == x;
    if |p| > 0 {
      assert s[|p| - 1] == p[|p| - 1];
    }
    if |q| > 0 {
      assert s[|p| + 1] == q[0];
    }
  }

  lemma ChainAround(w: nat, p: seq<Cidr>, x: Cidr, q: seq<Cidr>)
    requires Chain(w, p) && Chain(w, q) && Valid(w, x)
    requires |p| > 0 ==> Last(w, p[|p| - 1]) < x.prefix
    requires |q| > 0 ==> Last(w, x) < q[0].prefix
    ensures Chain(w, p + [x] + q)
  {
    ChainJoin(w, p, [x]);
    assert (p + [x])[|p + [x]| - 1] == x;
    ChainJoin(w, p + [x], q);
  }

  /** `p + [x] + q` covers what `p`, `x` and `q` cover. */
  lemma CoversAround(w: nat, p: seq<Cidr>, x: Cidr, q: seq<Cidr>, a: nat)
    requires AllValid(w, p) && AllValid(w, q) && Valid(w, x)
    ensures AllValid(w, p + [x] + q) && AllValid(w, p + q)
    ensures Covers(w, p + [x] + q, a) <==> Covers(w, p, a) || InBlock(w, x, a) || Covers(w, q, a)
    ensures Covers(w, p + q, a) <==> Covers(w, p, a) || Covers(w, q, a)
  {
    CoversOne(w, x, a);
    CoversJoin(w, p, [x], a);
    CoversJoin(w, p + [x], q, a);
    CoversJoin(w, p, q, a);
  }

  /** What the list covers with `x` when `x` absorbs its buddy `q[0]`. */
  lemma MergeNextCovers(w: nat, p: seq<Cidr>, x: Cidr, q: seq<Cidr>)
    requires AllValid(w, p) && AllValid(w, q) && |q| > 0 && Valid(w, x) && Buddies(w, x, q[0])
    requires x.prefix < q[0].prefix
    ensures 1 <= Len(w, x) && AllValid(w, p + q) && AllValid(w, p + q[1..])
    ensures forall a :: Covers(w, p + q[1..], a) || InBlock(w, Merged(w, x), a) <==> Covers(w, p + q, a) || InBlock(w, x, a)
  {
    var m := Merged(w, x);
    BuddyMerge(w, x, q[0]);
    assert AllValid(w, q[1..]);
    forall a
      ensures Covers(w, p + q[1..], a) || InBlock(w, m, a) <==> Covers(w, p + q, a) || InBlock(w, x, a)
    {
      CoversAround(w, p, q[0], q[1..], a);
      assert p + [q[0]] + q[1..] == p + q;
      CoversJoin(w, p, q[1..], a);
      MergedCovers(w, x, q[0], m, a);
    }
  }

  lemma MergeNext(w: nat, p: seq<Cidr>, x: Cidr, q: seq<Cidr>)
    requires Chain(w, p + [x] + q) && |q| > 0
    requires Valid(w, x) && Valid(w, q[0]) && Buddies(w, x, q[0])
    ensures 1 <= Len(w, x) && Chain(w, p + [Merged(w, x)] + q[1..])
    ensures AllValid(w, p + q) && AllValid(w, p + q[1..])
    ensures forall a :: Covers(w, p + q[1..], a) || InBlock(w, Merged(w, x), a) <==> Covers(w, p + q, a) || InBlock(w, x, a)
    ensures AllValid(w, q) && NoBuddies(w, q) ==> NoBuddies(w, q[1..])
  {
    ChainParts(w, p, x, q);
    var m := Merged(w, x);
    BuddyMerge(w, x, q[0]);
    ChainSlice(w, q, 1, |q|);
    if |q| > 1 {
      assert q[1..][0] == q[1];
    }
    ChainAround(w, p, m, q[1..]);
    MergeNextCovers(w, p, x, q);
    if AllValid(w, q) && NoBuddies(w, q) {
      NoBuddiesSlice(w, q, 1, |q|);
    }
  }

  /** Merging the single-out block with its predecessor. */
  lemma MergePrev(w: nat, p: seq<Cidr>, x: Cidr, q: seq<Cidr>)
    requires Chain(w, p + [x] + q) && |p| > 0
    requires Valid(w, x) && Valid(w, p[|p| - 1]) && Buddies(w, p[|p| - 1], x)
    ensures 1 <= Len(w, p[|p| - 1])
    ensures Chain(w, p[..|p| - 1] + [Merged(w, p[|p| - 1])] + q)
    ensures AllValid(w, p + q) && AllValid(w, p[..|p| - 1] + q)
    ensures forall a :: Covers(w, p[..|p| - 1] + q, a) || InBlock(w, Merged(w, p[|p| - 1]), a) <==> Covers(w, p + q, a) || InBlock(w, x, a)
    ensures AllValid(w, p) && NoBuddies(w, p) ==> NoBuddies(w, p[..|p| - 1])
  {
    ChainParts(w, p, x, q);
    var c := p[|p| - 1];
    var r := p[..|p| - 1];
    BuddyMerge(w, c, x);
    MergePrevChain(w, p, x, q);
    assert p == r + [c];
    forall a
      ensures Covers(w, r + q, a) || InBlock(w, Merged(w, c), a) <==> Covers(w, p + q, a) || InBlock(w, x, a)
    {
      MergePrevCovers(w, r, c, x, q, a);
    }
    if AllValid(w, p) && NoBuddies(w, p) {
      NoBuddiesSlice(w, p, 0, |p| - 1);
    }
  }

  lemma MergePrevChain(w: nat, p: seq<Cidr>, x: Cidr, q: seq<Cidr>)
    requires Chain(w, p + [x] + q) && |p| > 0
    requires Valid(w, x) && Valid(w, p[|p| - 1]) && Buddies(w, p[|p| - 1], x)
    ensures 1 <= Len(w, p[|p| - 1])
    ensures Chain(w, p[..|p| - 1] + [Merged(w, p[|p| - 1])] + q)
  {
    ChainParts(w, p, x, q);
    var c := p[|p| - 1];
    var r := p[..|p| - 1];
    var m := Merged(w, c);
    BuddyMerge(w, c, x);
    ChainSlice(w, p, 0, |p| - 1);
    if |r| > 0 {
      ChainApart(w, p, |p| - 2, |p| - 1);
      assert r[|r| - 1] == p[|p| - 2];
    }
    ChainAround(w, r, m, q);
  }

  lemma MergePrevCovers(w: nat, r: seq<Cidr>, c: Cidr, x: Cidr, q: seq<Cidr>, a: nat)
    requires AllValid(w, r) && AllValid(w, q) && Valid(w, x) && Valid(w, c)
    requires c.prefix < x.prefix && Buddies(w, c, x)
    ensures AllValid(w, r + [c] + q) && AllValid(w, r + q)
    ensures Covers(w, r + q, a) || InBlock(w, Merged(w, c), a) <==> Covers(w, r + [c] + q, a) || InBlock(w, x, a)
  {
    BuddyMerge(w, c, x);
    CoversAround(w, r, c, q, a);
    MergedCovers(w, c, x, Merged(w, c), a);
  }

  /**
   * A block sorted into a chain at `index`, and not holding its first address in the block
   * before, lies inside no block of the chain.
   */
  lemma NoHolder(w: nat, s: seq<Cidr>, index: nat, x: Cidr)
    requires Chain(w, s) && Valid(w, x) && index <= |s|
    requires forall i :: 0 <= i < index ==> Order(w, s[i], x) == Less
    requires forall i :: index <= i < |s| ==> Order(w, s[i], x) == Greater
    requires index > 0 ==> !(s[index - 1].prefix <= x.prefix <= Last(w, s[index - 1]))
    ensures forall j :: 0 <= j < |s| ==> !Within(w, x, s[j])
  {
    forall j | 0 <= j < |s|
      ensures !Within(w, x, s[j])
    {
      if j + 1 < index {
        ChainApart(w, s, j, index - 1);
      } else if index <= j {
        NotInsideLater(w, s[j], x);
      }
    }
  }

  /** A block that sorts after `x` cannot hold `x`: it starts later, or is the smaller of two with one start. */
  lemma NotInsideLater(w: nat, d: Cidr, x: Cidr)
    requires Valid(w, d) && Valid(w, x) && Order(w, d, x) == Greater
    ensures !Within(w, x, d)
  {
    if d.prefix == x.prefix {
      Pow2Mono(w - Len(w, d), w - Len(w, x));
    }
  }

  /**
   * After the absorbing loop: with the `k` blocks from `index` removed, all inside `x`, the
   * block fits between its neighbours, and the list with `x` covers what `s` and `x` cover.
   */
  lemma Absorbed(w: nat, s: seq<Cidr>, index: nat, k: nat, x: Cidr)
    requires Normal(w, s) && Valid(w, x) && index + k <= |s|
    requires index > 0 ==> Order(w, s[index - 1], x) == Less
    requires index + k < |s| ==> Order(w, s[index + k], x) == Greater
    requires index > 0 ==> !(s[index - 1].prefix <= x.prefix <= Last(w, s[index - 1]))
    requires forall j :: index <= j < index + k ==> Within(w, s[j], x)
    requires index + k < |s| ==> !(x.prefix <= s[index + k].prefix <= Last(w, x))
    ensures Chain(w, s[..index] + [x] + s[index + k..])
    ensures AllValid(w, s[..index]) && AllValid(w, s[index + k..])
    ensures NoBuddies(w, s[..index]) && NoBuddies(w, s[index + k..])
    ensures AllValid(w, s[..index] + s[index + k..])
    ensures forall a :: Covers(w, s[..index] + s[index + k..], a) || InBlock(w, x, a) <==> Covers(w, s, a) || InBlock(w, x, a)
  {
    AbsorbedChain(w, s, index, k, x);
    NoBuddiesSlice(w, s, 0, index);
    NoBuddiesSlice(w, s, index + k, |s|);
    AbsorbedCoversAll(w, s, index, k, x);
  }

  lemma AbsorbedCoversAll(w: nat, s: seq<Cidr>, index: nat, k: nat, x: Cidr)
    requires AllValid(w, s) && Valid(w, x) && index + k <= |s|
    requires forall j :: index <= j < index + k ==> Within(w, s[j], x)
    ensures AllValid(w, s[..index] + s[index + k..])
    ensures forall a :: Covers(w, s[..index] + s[index + k..], a) || InBlock(w, x, a) <==> Covers(w, s, a) || InBlock(w, x, a)
  {
    var p, m, q := s[..index], s[index..index + k], s[index + k..];
    assert s == p + m + q;
    assert forall j :: 0 <= j < |m| ==> m[j] == s[index + j];
    assert AllValid(w, p) && AllValid(w, m) && AllValid(w, q);
    forall a: nat
      ensures Covers(w, p + q, a) || InBlock(w, x, a) <==> Covers(w, s, a) || InBlock(w, x, a)
    {
      AbsorbedCovers(w, p, m, q, x, a);
    }
  }

  lemma AbsorbedChain(w: nat, s: seq<Cidr>, index: nat, k: nat, x: Cidr)
    requires Chain(w, s) && Valid(w, x) && index + k <= |s|
    requires index > 0 ==> Order(w, s[index - 1], x) == Less
    requires index + k < |s| ==> Order(w, s[index + k], x) == Greater
    requires index > 0 ==> !(s[index - 1].prefix <= x.prefix <= Last(w, s[index - 1]))
    requires index + k < |s| ==> !(x.prefix <= s[index + k].prefix <= Last(w, x))
    ensures Chain(w, s[..index] + [x] + s[index + k..])
  {
    var p, q := s[..index], s[index + k..];
    ChainSlice(w, s, 0, index);
    ChainSlice(w, s, index + k, |s|);
    if index > 0 {
      assert p[|p| - 1] == s[index - 1];
    }
    if index + k < |s| {
      assert q[0] == s[index + k];
    }
    ChainAround(w, p, x, q);
  }

  lemma AbsorbedCovers(w: nat, p: seq<Cidr>, m: seq<Cidr>, q: seq<Cidr>, x: Cidr, a: nat)
    requires AllValid(w, p) && AllValid(w, m) && AllValid(w, q) && Valid(w, x)
    requires forall j :: 0 <= j < |m| ==> Within(w, m[j], x)
    ensures AllValid(w, p + q) && AllValid(w, p + m + q)
    ensures Covers(w, p + q, a) || InBlock(w, x, a) <==> Covers(w, p + m + q, a) || InBlock(w, x, a)
  {
    CoversJoin(w, p, q, a);
    CoversJoin(w, p, m, a);
    CoversJoin(w, p + m, q, a);
  }

  lemma {:induction false} ChainSpan(w: nat, s: seq<Cidr>)
    requires Chain(w, s) && |s| > 0
    ensures s[0].prefix + TotalSize(w, s) == Last(w, s[|s| - 1]) + 1 - Gaps(w, s)
    decreases |s|
  {
    if |s| > 1 {
      var t := s[..|s| - 1];
      ChainSlice(w, s, 0, |s| - 1);
      ChainSpan(w, t);
      assert t[0] == s[0] && t[|t| - 1] == s[|s| - 2];
      assert t == s[..|s| - 1];
    }
  }

  /** The addresses between the blocks of a chain. */
  function Gaps(w: nat, s: seq<Cidr>): nat
    requires Chain(w, s)
  {
    if |s| <= 1 then 0
    else
      ChainSlice(w, s, 0, |s| - 1);
      Gaps(w, s[..|s| - 1]) + (s[|s| - 1].prefix - Last(w, s[|s| - 2]) - 1)
  }

  /** The sizes of a chain add up to at most `2^w`: the `u64` sum of `size` cannot wrap. */
  lemma TotalSizeBound(w: nat, s: seq<Cidr>)
    requires Chain(w, s)
    ensures TotalSize(w, s) <= Pow2(w)
  {
    if |s| > 0 {
      ChainSpan(w, s);
    }
  }

  //
  // A normal list is determined by what it covers.
  //

  /** Two multiples of `m` add up to a multiple of `m`. */
  lemma AlignedSum(p: nat, q: nat, m: nat)
    requires m >= 1 && p % m == 0 && q % m == 0
    ensures (p + q) % m == 0
  {
    var u, v := p / m, q / m;
    assert p == m * u && q == m * v;
    assert p + q == m * (u + v);
    DivModUnique(p + q, m, u + v, 0);
  }

  /** A multiple of `z` is either a multiple of `2 z` or `z` past one. */
  lemma HalfAligned(p: nat, z: nat)
    requires z >= 1 && p % z == 0
    ensures p % (2 * z) == 0 || p % (2 * z) == z
  {
    var q := p / z;
    var h := q / 2;
    assert p == z * q;
    if q % 2 == 0 {
      assert q == 2 * h;
      assert p == (2 * z) * h;
      DivModUnique(p, 2 * z, h, 0);
    } else {
      assert q == 2 * h + 1;
      assert p == (2 * z) * h + z;
      DivModUnique(p, 2 * z, h, z);
    }
  }

  /** A block of a shorter length is aligned to twice the size of one of a longer length. */
  lemma LargerAligned(w: nat, c: Cidr, d: Cidr)
    requires Valid(w, c) && Valid(w, d) && Len(w, d) < Len(w, c)
    ensures Size(w, c) < Size(w, d)
    ensures Size(w, d) % (2 * Size(w, c)) == 0 && d.prefix % (2 * Size(w, c)) == 0
  {
    var k, m := w - Len(w, c), w - Len(w, d);
    var z2 := Pow2(k + 1);
    assert z2 == 2 * Size(w, c);
    assert Size(w, d) == Pow2(m) && d.prefix % Pow2(m) == 0;
    Pow2Mono(k, m);
    Pow2Divides(k + 1, m);
    DivisibleMultiple(d.prefix, z2, Pow2(m));
  }

  /** Two blocks of one length, side by side and starting at a multiple of twice their size, are buddies. */
  lemma AdjacentBuddies(w: nat, c: Cidr, d: Cidr)
    requires Valid(w, c) && Valid(w, d) && Len(w, c) == Len(w, d) && 1 <= Len(w, c)
    requires d.prefix == c.prefix + Size(w, c) && c.prefix % (2 * Size(w, c)) == 0
    ensures Buddies(w, c, d)
  {
    var k := w - Len(w, c);
    assert Pow2(k + 1) == 2 * Pow2(k);
    XorSingleBit(d.prefix, c.prefix, w, k);
  }

  /** In a chain, the block covering the address right after block `i` is block `i + 1`, starting there. */
  lemma NeighbourAfter(w: nat, t: seq<Cidr>, i: nat, y: nat)
    requires Chain(w, t) && i < |t| && y == Last(w, t[i]) + 1 && Covers(w, t, y)
    ensures i + 1 < |t| && t[i + 1].prefix == y
  {
    var j :| 0 <= j < |t| && t[j].prefix <= y <= Last(w, t[j]);
    if j < i {
      ChainApart(w, t, j, i);
    } else if j > i + 1 {
      ChainApart(w, t, i, i + 1);
      ChainApart(w, t, i + 1, j);
    }
    ChainApart(w, t, i, j);
  }

  /** In a chain, the block covering the address right before block `i` is block `i - 1`, ending there. */
  lemma NeighbourBefore(w: nat, t: seq<Cidr>, i: nat, y: nat)
    requires Chain(w, t) && i < |t| && y + 1 == t[i].prefix && Covers(w, t, y)
    ensures 1 <= i && Last(w, t[i - 1]) == y
  {
    var j :| 0 <= j < |t| && t[j].prefix <= y <= Last(w, t[j]);
    if j > i {
      ChainApart(w, t, i, j);
    } else if j < i - 1 {
      ChainApart(w, t, j, i - 1);
    }
    ChainApart(w, t, j, i);
  }

  /** The other half of a lower half `c` inside a larger block `b` lies inside `b` too. */
  lemma LowerBuddyInside(w: nat, c: Cidr, b: Cidr)
    requires Valid(w, c) && Valid(w, b) && Within(w, c, b) && Len(w, b) < Len(w, c)
    requires c.prefix % (2 * Size(w, c)) == 0
    ensures c.prefix + 2 * Size(w, c) <= b.prefix + Size(w, b)
  {
    LargerAligned(w, c, b);
    AlignedNest(b.prefix, Size(w, b), c.prefix, 2 * Size(w, c));
  }

  /** No block longer than a lower half `c` starts right after it. */
  lemma NotLargerAfterLower(w: nat, c: Cidr, d: Cidr)
    requires Valid(w, c) && Valid(w, d) && d.prefix == c.prefix + Size(w, c)
    requires c.prefix % (2 * Size(w, c)) == 0
    ensures Len(w, c) <= Len(w, d)
  {
    if Len(w, d) < Len(w, c) {
      var z := Size(w, c);
      LargerAligned(w, c, d);
      DivModUnique(d.prefix, 2 * z, c.prefix / (2 * z), z);
    }
  }

  /** Rounding `p` down to a multiple of `m` stays at or above any multiple of `m` below `p`. */
  lemma RoundDownAbove(p: nat, m: nat, bp: nat)
    requires m >= 1 && bp % m == 0 && bp <= p
    ensures p % m <= p && bp <= p - p % m && (p - p % m) % m == 0
  {
    DivMod(p, m);
    var base := (p / m) * m;
    DivModUnique(base, m, p / m, 0);
    if bp > base {
      BetweenAligned(base, bp, m);
    }
  }

  /** The other half of an upper half `c` inside a larger block `b` lies inside `b` too. */
  lemma UpperBuddyInside(w: nat, c: Cidr, b: Cidr)
    requires Valid(w, c) && Valid(w, b) && Within(w, c, b) && Len(w, b) < Len(w, c)
    requires c.prefix % (2 * Size(w, c)) == Size(w, c)
    ensures Size(w, c) <= c.prefix && b.prefix <= c.prefix - Size(w, c)
    ensures (c.prefix - Size(w, c)) % (2 * Size(w, c)) == 0
  {
    LargerAligned(w, c, b);
    RoundDownAbove(c.prefix, 2 * Size(w, c), b.prefix);
  }

  /** No block longer than an upper half `c` ends right before it. */
  lemma NotLargerBeforeUpper(w: nat, c: Cidr, d: Cidr)
    requires Valid(w, c) && Valid(w, d) && Last(w, d) + 1 == c.prefix
    requires c.prefix % (2 * Size(w, c)) == Size(w, c)
    ensures Len(w, c) <= Len(w, d)
  {
    if Len(w, d) < Len(w, c) {
      LargerAligned(w, c, d);
      AlignedSum(d.prefix, Size(w, d), 2 * Size(w, c));
    }
  }

  /**
   * A lower half `t[i]` of a block inside a covered `b`: its neighbour covers the other half's
   * first address, so it is a smaller block inside `b` (an equal one would be a buddy, a larger
   * one could not start there).
   */
  lemma LowerHalfNeighbour(w: nat, t: seq<Cidr>, i: nat, b: Cidr)
    requires Normal(w, t) && i < |t| && Valid(w, b)
    requires Within(w, t[i], b) && Len(w, b) < Len(w, t[i])
    requires forall a :: InBlock(w, b, a) ==> Covers(w, t, a)
    requires t[i].prefix % (2 * Size(w, t[i])) == 0
    ensures i + 1 < |t| && Len(w, t[i]) < Len(w, t[i + 1]) && Within(w, t[i + 1], b)
  {
    var c := t[i];
    var y := c.prefix + Size(w, c);
    LowerBuddyInside(w, c, b);
    assert InBlock(w, b, y);
    NeighbourAfter(w, t, i, y);
    var d := t[i + 1];
    NotLargerAfterLower(w, c, d);
    if Len(w, d) == Len(w, c) {
      AdjacentBuddies(w, c, d);
      assert false;
    }
    Pow2Mono(w - Len(w, d), w - Len(w, c));
  }

  /** The mirror image: an upper half's neighbour is a smaller block inside `b`. */
  lemma UpperHalfNeighbour(w: nat, t: seq<Cidr>, i: nat, b: Cidr)
    requires Normal(w, t) && i < |t| && Valid(w, b)
    requires Within(w, t[i], b) && Len(w, b) < Len(w, t[i])
    requires forall a :: InBlock(w, b, a) ==> Covers(w, t, a)
    requires t[i].prefix % (2 * Size(w, t[i])) == Size(w, t[i])
    ensures 1 <= i && Len(w, t[i]) < Len(w, t[i - 1]) && Within(w, t[i - 1], b)
  {
    var c := t[i];
    UpperBuddyInside(w, c, b);
    var y := c.prefix - 1;
    assert InBlock(w, b, y);
    NeighbourBefore(w, t, i, y);
    var d := t[i - 1];
    NotLargerBeforeUpper(w, c, d);
    if Len(w, d) == Len(w, c) {
      AdjacentBuddies(w, d, c);
      assert false;
    }
    Pow2Mono(w - Len(w, d), w - Len(w, c));
  }

  /**
   * No block of a normal list lies strictly inside a larger block all of whose addresses
   * the list covers: the other half of the block's parent would be covered too, and the
   * neighbour that covers its edge would be a still smaller block inside the larger one.
   */
  lemma {:induction false} NoCoveredParent(w: nat, t: seq<Cidr>, i: nat, b: Cidr)
    requires Normal(w, t) && i < |t| && Valid(w, b)
    requires Within(w, t[i], b) && Len(w, b) < Len(w, t[i])
    requires forall a :: InBlock(w, b, a) ==> Covers(w, t, a)
    ensures false
    decreases w - Len(w, t[i])
  {
    HalfAligned(t[i].prefix, Size(w, t[i]));
    if t[i].prefix % (2 * Size(w, t[i])) == 0 {
      LowerHalfNeighbour(w, t, i, b);
      NoCoveredParent(w, t, i + 1, b);
    } else {
      UpperHalfNeighbour(w, t, i, b);
      NoCoveredParent(w, t, i - 1, b);
    }
  }

  /** The first block of a chain starts at or below every address it covers. */
  lemma FirstLowest(w: nat, s: seq<Cidr>, a: nat)
    requires Chain(w, s) && Covers(w, s, a)
    ensures |s| > 0 && s[0].prefix <= a
  {
    var j :| 0 <= j < |s| && s[j].prefix <= a <= Last(w, s[j]);
    if j > 0 {
      ChainApart(w, s, 0, j);
    }
  }

  /** Past its first block a chain covers what it covers outside that block. */
  lemma CoversTail(w: nat, s: seq<Cidr>, a: nat)
    requires Chain(w, s) && |s| > 0
    ensures AllValid(w, s[1..])
    ensures Covers(w, s[1..], a) <==> Covers(w, s, a) && !InBlock(w, s[0], a)
  {
    var t := s[1..];
    assert forall j :: 0 <= j < |t| ==> t[j] == s[j + 1];
    if Covers(w, t, a) {
      var j :| 0 <= j < |t| && t[j].prefix <= a <= Last(w, t[j]);
      ChainApart(w, s, 0, j + 1);
      assert s[j + 1].prefix <= a <= Last(w, s[j + 1]);
    }
    if Covers(w, s, a) && !InBlock(w, s[0], a) {
      var i :| 0 <= i < |s| && s[i].prefix <= a <= Last(w, s[i]);
      assert t[i - 1].prefix <= a <= Last(w, t[i - 1]);
    }
  }

  /** Two normal lists covering the same addresses start with the same block. */
  lemma SameHead(w: nat, s: seq<Cidr>, t: seq<Cidr>)
    requires Normal(w, s) && Normal(w, t) && |s| > 0
    requires forall a :: Covers(w, s, a) <==> Covers(w, t, a)
    ensures |t| > 0 && s[0] == t[0]
  {
    assert Covers(w, s, s[0].prefix);
    FirstLowest(w, t, s[0].prefix);
    assert Covers(w, t, t[0].prefix);
    FirstLowest(w, s, t[0].prefix);
    var c, d := s[0], t[0];
    if Len(w, c) < Len(w, d) {
      Pow2Mono(w - Len(w, d), w - Len(w, c));
      forall a | InBlock(w, c, a)
        ensures Covers(w, t, a)
      {
        assert Covers(w, s, a);
      }
      NoCoveredParent(w, t, 0, c);
    } else if Len(w, d) < Len(w, c) {
      Pow2Mono(w - Len(w, c), w - Len(w, d));
      forall a | InBlock(w, d, a)
        ensures Covers(w, s, a)
      {
        assert Covers(w, t, a);
      }
      NoCoveredParent(w, s, 0, d);
    }
    Unique(w, c, d);
  }

  /** Dropping a common first block from two chains keeps what they cover equal. */
  lemma SameTail(w: nat, s: seq<Cidr>, t: seq<Cidr>)
    requires Normal(w, s) && Normal(w, t) && |s| > 0 && |t| > 0 && s[0] == t[0]
    requires forall a :: Covers(w, s, a) <==> Covers(w, t, a)
    ensures Normal(w, s[1..]) && Normal(w, t[1..])
    ensures forall a :: Covers(w, s[1..], a) <==> Covers(w, t[1..], a)
  {
    ChainSlice(w, s, 1, |s|);
    ChainSlice(w, t, 1, |t|);
    NoBuddiesSlice(w, s, 1, |s|);
    NoBuddiesSlice(w, t, 1, |t|);
    forall a
      ensures Covers(w, s[1..], a) <==> Covers(w, t[1..], a)
    {
      CoversTail(w, s, a);
      CoversTail(w, t, a);
    }
  }

  /**
   * The normal form is unique: two normal lists that cover the same addresses are equal.
   * So `push`, which leaves a normal list covering the old addresses and the block's, has
   * exactly one possible result.
   */
  lemma {:induction false} NormalUnique(w: nat, s: seq<Cidr>, t: seq<Cidr>)
    requires Normal(w, s) && Normal(w, t)
    requires forall a :: Covers(w, s, a) <==> Covers(w, t, a)
    ensures s == t
    decreases |s|
  {
    if |s| > 0 {
      SameHead(w, s, t);
      SameTail(w, s, t);
      NormalUnique(w, s[1..], t[1..]);
      assert s == [s[0]] + s[1..] && t == [t[0]] + t[1..];
    } else if |t| > 0 {
      SameHead(w, t, s);
    }
  }
}

/**
 * `Ipv4CidrCombiner` / `Ipv6CidrCombiner`: a sorted vector of disjoint blocks, and `push`,
 * which inserts a block, drops what it covers, and merges buddies.
 */
module Combiners {
  import opened Bits
  import opened Wrappers
  import opened Cidrs
  import opened Compare
  import opened BlockLists
  import opened Layout

  /** `binary_search`: found at an index, the insertion point, or a panicking `cmp`. */
  datatype Search = Found(at: nat) | Missing(index: nat) | CmpPanic(at: nat)

  /**
   * Which of the three `push` bodies: the flat `src/utils` files (transmute),
   * `src/utils/v4` and `v6` (module) or `src/combiner` (newest). They differ in the comparison, the
   * buddy test and the constructor of the merged block.
   */
  datatype Generation = Transmute | Modular | Newest

  class Combiner {
    const family: Family
    const generation: Generation
    var cidrs: seq<Cidr>

    /**
     * The module and transmute IPv6 combiners order with the `cmp` that panics on equal
     * prefixes; the newest generation's IPv6 combiner uses the `cidr` crate's order.
     */
    predicate PanickyCmp()
    {
      family == IPv6 && generation != Newest
    }

    ghost predicate Valid()
      reads this
    {
      Normal(Width(family), cidrs)
    }

    /** `new` / `with_capacity`: an empty list. */
    constructor (f: Family, g: Generation)
      ensures Valid() && family == f && generation == g && cidrs == []
    {
      family := f;
      generation := g;
      cidrs := [];
    }

    /**
     * `from_ipv4_cidr_vec_unchecked` / `from_ipv6_cidr_vec_unchecked`: the list is taken as
     * given, so the caller must hand in one that is already sorted, disjoint and buddy-free.
     */
    constructor FromVec(f: Family, g: Generation, s: seq<Cidr>)
      requires Normal(Width(f), s)
      ensures Valid() && family == f && generation == g && cidrs == s
    {
      family := f;
      generation := g;
      cidrs := s;
    }

    /**
     * `push`: a block already listed changes nothing; otherwise it is inserted at the
     * position `binary_search` reports, as `InsertAt` describes. With the panicking IPv6
     * comparison, meeting a listed block with the same prefix panics, leaving the list as it
     * was.
     */
    method Push(x: Cidr) returns (panicked: bool)
      requires Valid() && Cidrs.Valid(Width(family), x)
      modifies this
      ensures Valid()
      ensures !PanickyCmp() ==> !panicked
      ensures panicked ==> cidrs == old(cidrs) && exists j :: 0 <= j < |cidrs| && cidrs[j].prefix == x.prefix
      ensures PanickyCmp() && (exists j :: 0 <= j < |old(cidrs)| && old(cidrs)[j].prefix == x.prefix) ==> panicked
      ensures !panicked ==> forall a :: Covers(Width(family), cidrs, a) <==> Covers(Width(family), old(cidrs), a) || InBlock(Width(family), x, a)
      ensures !panicked && (exists j :: 0 <= j < |old(cidrs)| && Within(Width(family), x, old(cidrs)[j])) ==> cidrs == old(cidrs)
      ensures old(cidrs) == [] ==> cidrs == [x] && !panicked
    {
      cidrs, panicked := PushInto(family, generation, Width(family), cidrs, x);
    }

    /** `contains`: some block holds the address. */
    method Contains(a: nat) returns (r: bool)
      requires Valid() && a < Pow2(Width(family))
      ensures r <==> Covers(Width(family), cidrs, a)
    {
      r := Scan(Width(family), cidrs, a);
    }

    /** `size`: the sum of the block sizes, at most `2^w` (so the IPv4 `u64` sum never wraps). */
    method Size() returns (sum: nat)
      requires Valid()
      ensures sum == TotalSize(Width(family), cidrs)
      ensures sum <= Pow2(Width(family))
    {
      sum := SumSizes(Width(family), cidrs);
    }
  }

  /** The loop of `contains`: the first block holding `a` answers. */
  method Scan(w: nat, s: seq<Cidr>, a: nat) returns (r: bool)
    requires AllValid(w, s) && a < Pow2(w)
    ensures r <==> Covers(w, s, a)
  {
    var i := 0;
    while i < |s|
      invariant 0 <= i <= |s|
      invariant forall j :: 0 <= j < i ==> !(s[j].prefix <= a <= Last(w, s[j]))
    {
      var hit := Cidrs.Contains(w, s[i], a);
      if hit {
        return true;
      }
      i := i + 1;
    }
    r := false;
  }

  /** The loop of `size`. */
  method SumSizes(w: nat, s: seq<Cidr>) returns (sum: nat)
    requires Chain(w, s)
    ensures sum == TotalSize(w, s) && sum <= Pow2(w)
  {
    sum := 0;
    var i := 0;
    while i < |s|
      invariant 0 <= i <= |s|
      invariant sum == TotalSize(w, s[..i])
    {
      assert s[..i + 1][..i] == s[..i];
      sum := sum + Cidrs.Size(w, s[i]);
      i := i + 1;
    }
    assert s[..i] == s;
    TotalSizeBound(w, s);
  }

  /** A width of whole octets, as both address widths are. */
  predicate OctetWidth(w: nat)
  {
    8 <= w && w % 8 == 0
  }

  /** The block comparison `binary_search` calls, for the given family and generation. */
  method CompareBlocks(f: Family, g: Generation, w: nat, c: Cidr, d: Cidr) returns (r: CmpOutcome)
    requires w == Width(f) && Valid(w, c) && Valid(w, d)
    ensures r.IndexPanic? <==> f == IPv6 && g != Newest && c.prefix == d.prefix
    ensures r.Done? ==> r.order == Order(w, c, d)
  {
    if f == IPv4 {
      var o := CmpV4(c, d);
      r := Done(o);
    } else if g != Newest {
      r := CmpV6(c, d);
    } else {
      var o := CmpV6Fixed(c, d);
      r := Done(o);
    }
  }

  /** The bisection of `binary_search`, over a sorted list. */
  method Bisect(f: Family, g: Generation, w: nat, s: seq<Cidr>, x: Cidr) returns (r: Search)
    requires w == Width(f) && Chain(w, s) && Valid(w, x)
    ensures r.Found? ==> r.at < |s| && s[r.at] == x
    ensures r.Missing? ==> r.index <= |s|
    ensures r.Missing? ==> forall i :: 0 <= i < r.index ==> Order(w, s[i], x) == Less
    ensures r.Missing? ==> forall i :: r.index <= i < |s| ==> Order(w, s[i], x) == Greater
    ensures r.CmpPanic? ==> f == IPv6 && g != Newest && r.at < |s| && s[r.at].prefix == x.prefix
    ensures f == IPv6 && g != Newest && (exists j :: 0 <= j < |s| && s[j].prefix == x.prefix) ==> r.CmpPanic?
  {
    var left, right := 0, |s|;
    while left < right
      invariant 0 <= left <= right <= |s|
      invariant forall i :: 0 <= i < left ==> Order(w, s[i], x) == Less
      invariant forall i :: right <= i < |s| ==> Order(w, s[i], x) == Greater
      invariant f == IPv6 && g != Newest ==> forall i :: 0 <= i < left ==> s[i].prefix < x.prefix
      invariant f == IPv6 && g != Newest ==> forall i :: right <= i < |s| ==> x.prefix < s[i].prefix
    {
      var mid := left + (right - left) / 2;
      var c := CompareBlocks(f, g, w, s[mid], x);
      match c
      case IndexPanic =>
        return CmpPanic(mid);
      case Done(o) =>
        if o == Equal {
          return Found(mid);
        } else if o == Less {
          BelowAll(w, s, mid, x);
          if f == IPv6 && g != Newest {
            PrefixesBelow(w, s, mid, x);
          }
          left := mid + 1;
        } else {
          AboveAll(w, s, mid, x);
          if f == IPv6 && g != Newest {
            PrefixesAbove(w, s, mid, x);
          }
          right := mid;
        }
    }
    r := Missing(left);
  }

  /** The body of `push` on the list's value. */
  method PushInto(f: Family, g: Generation, w: nat, s: seq<Cidr>, x: Cidr) returns (t: seq<Cidr>, panicked: bool)
    requires w == Width(f) && Normal(w, s) && Valid(w, x)
    ensures Normal(w, t)
    ensures panicked ==> f == IPv6 && g != Newest
    ensures panicked ==> t == s && exists j :: 0 <= j < |s| && s[j].prefix == x.prefix
    ensures f == IPv6 && g != Newest && (exists j :: 0 <= j < |s| && s[j].prefix == x.prefix) ==> panicked
    ensures !panicked ==> forall a :: Covers(w, t, a) <==> Covers(w, s, a) || InBlock(w, x, a)
    ensures !panicked && (exists j :: 0 <= j < |s| && Within(w, x, s[j])) ==> t == s
    ensures s == [] ==> t == [x] && !panicked
  {
    var r := Bisect(f, g, w, s, x);
    match r
    case Found(at) =>
      HeldCovers(w, s, at, x);
      t, panicked := s, false;
    case CmpPanic(at) =>
      t, panicked := s, true;
    case Missing(index) =>
      t := InsertAt(w, s, index, x, g);
      panicked := false;
  }

  /** A block inside a listed one adds nothing to what the list covers. */
  lemma HeldCovers(w: nat, s: seq<Cidr>, j: nat, x: Cidr)
    requires AllValid(w, s) && j < |s| && Valid(w, x) && Within(w, x, s[j])
    ensures forall a :: Covers(w, s, a) <==> Covers(w, s, a) || InBlock(w, x, a)
  {
    forall a: nat | InBlock(w, x, a)
      ensures Covers(w, s, a)
    {
      CoversWithin(w, s, j, x, a);
    }
  }

  /**
   * The buddy test of `push` for `c` before `d` of equal length `bits >= 1`:
   * `d.prefix ^ c.prefix == 1 << (w - bits)`. The transmute generation compares the stored
   * (byte-swapped) words against the byte-swapped single bit instead.
   */
  method BuddyTest(w: nat, c: Cidr, d: Cidr, bits: nat, g: Generation) returns (b: bool)
    requires OctetWidth(w)
    requires Valid(w, c) && Valid(w, d) && bits == Len(w, c) == Len(w, d) && 1 <= bits
    ensures b == Buddies(w, c, d)
  {
    if g == Transmute {
      var n := w / 8;
      BuddyWordTest(n, c.prefix, d.prefix, bits);
      var diff := Xor(Swap(n, d.prefix), Swap(n, c.prefix), w);
      b := diff == BuddyWord(n, bits);
    } else {
      ShlOne(w - bits, w);
      var diff := Xor(d.prefix, c.prefix, w);
      b := diff == Shl(1, w - bits, w);
    }
  }

  /**
   * A block from an aligned prefix, built as the generation does: `from_prefix_and_bits`
   * (module and transmute generations) or the `cidr` crate's strict `new`, whose `unwrap`
   * cannot fail on an aligned prefix.
   */
  method MakeBlock(w: nat, p: nat, bits: nat, g: Generation) returns (c: Cidr)
    requires p < Pow2(w) && bits <= w && p % Pow2(w - bits) == 0
    ensures c == Block(w, p, bits)
  {
    if g == Newest {
      var r := StrictNew(w, p, bits);
      match r
      case Some(v) =>
        Unique(w, v, Block(w, p, bits));
        c := v;
      case None =>
        assert false;
    } else {
      var r := FromPrefixAndBits(w, p, bits);
      Unique(w, r.value, Block(w, p, bits));
      c := r.value;
    }
  }

  /**
   * The merged block, `from_prefix_and_bits(prefix, bits - 1)` or `new(prefix, bits - 1)`:
   * the lower buddy is aligned to the merged size, so the strict constructor succeeds.
   */
  method Rebuild(w: nat, prefix: nat, bits: nat, g: Generation, ghost c: Cidr, ghost d: Cidr) returns (m: Cidr)
    requires Valid(w, c) && Valid(w, d) && c.prefix < d.prefix && Buddies(w, c, d)
    requires prefix == c.prefix && bits == Len(w, c)
    ensures m == Merged(w, c)
  {
    BuddyMerge(w, c, d);
    m := MakeBlock(w, prefix, bits - 1, g);
    Unique(w, m, Merged(w, c));
  }

  /**
   * The `Err(index)` branch of `push`. When the block before `index` holds the new block's
   * first address the list stays as it is; otherwise the blocks from `index` on that the
   * new block holds are dropped, and then, for as long as either neighbour is its buddy, the
   * two are replaced by the block one bit shorter. The result is again sorted, disjoint and
   * buddy-free, and covers exactly the old addresses and the new block's.
   */
  method InsertAt(w: nat, s: seq<Cidr>, index: nat, x: Cidr, g: Generation) returns (t: seq<Cidr>)
    requires OctetWidth(w) && Normal(w, s) && Valid(w, x) && index <= |s|
    requires forall i :: 0 <= i < index ==> Order(w, s[i], x) == Less
    requires forall i :: index <= i < |s| ==> Order(w, s[i], x) == Greater
    ensures Normal(w, t)
    ensures forall a :: Covers(w, t, a) <==> Covers(w, s, a) || InBlock(w, x, a)
    ensures (exists j :: 0 <= j < |s| && Within(w, x, s[j])) ==> t == s
    ensures s == [] ==> t == [x]
  {
    if |s| == 0 {
      forall a: nat {
        CoversOne(w, x, a);
      }
      return [x];
    }
    var pushable := true;
    if index > 0 {
      pushable := !Cidrs.Contains(w, s[index - 1], x.prefix);
    }
    if !pushable {
      NestedOrDisjoint(w, s[index - 1], x);
      HeldCovers(w, s, index - 1, x);
      return s;
    }
    NoHolder(w, s, index, x);
    var cidrs, k := Absorb(w, s, index, x);
    Absorbed(w, s, index, k, x);
    var cidrs', index', x' := MergeBuddies(w, cidrs, index, x, g);
    t := cidrs'[..index'] + [x'] + cidrs'[index'..];
    Reassembled(w, cidrs', index', x');
  }

  /** Putting `x` back at `index` covers what the list and `x` cover together. */
  lemma Reassembled(w: nat, s: seq<Cidr>, index: nat, x: Cidr)
    requires AllValid(w, s) && Valid(w, x) && index <= |s|
    ensures forall a :: Covers(w, s[..index] + [x] + s[index..], a) <==> Covers(w, s, a) || InBlock(w, x, a)
  {
    forall a: nat
      ensures Covers(w, s[..index] + [x] + s[index..], a) <==> Covers(w, s, a) || InBlock(w, x, a)
    {
      assert AllValid(w, s[..index]) && AllValid(w, s[index..]);
      CoversAround(w, s[..index], x, s[index..], a);
      assert s[..index] + s[index..] == s;
    }
  }

  /** The first loop of `push`: drop the blocks from `index` on whose first address `x` holds. */
  method Absorb(w: nat, s: seq<Cidr>, index: nat, x: Cidr) returns (cidrs: seq<Cidr>, ghost k: nat)
    requires AllValid(w, s) && Valid(w, x) && index <= |s|
    requires forall i :: index <= i < |s| ==> Order(w, s[i], x) == Greater
    ensures index + k <= |s| && cidrs == s[..index] + s[index + k..]
    ensures forall j :: index <= j < index + k ==> Within(w, s[j], x)
    ensures index + k < |s| ==> !(x.prefix <= s[index + k].prefix <= Last(w, x))
  {
    cidrs, k := s, 0;
    while index < |cidrs|
      invariant index + k <= |s| && cidrs == s[..index] + s[index + k..]
      invariant forall j :: index <= j < index + k ==> Within(w, s[j], x)
      decreases |cidrs| - index
    {
      assert cidrs[index] == s[index + k];
      if !Cidrs.Contains(w, x, cidrs[index].prefix) {
        return;
      }
      NestedOrDisjoint(w, x, cidrs[index]);
      assert s[index + k + 1..] == s[index + k..][1..];
      cidrs := cidrs[..index] + cidrs[index + 1..];
      k := k + 1;
    }
  }

  /**
   * The merging loop of `push`: while the block after or before `x` is its buddy, replace
   * the pair by the merged block. What the list and `x` cover together does not change.
   */
  method MergeBuddies(w: nat, cidrs0: seq<Cidr>, index0: nat, x0: Cidr, g: Generation)
    returns (cidrs: seq<Cidr>, index: nat, x: Cidr)
    requires OctetWidth(w) && index0 <= |cidrs0| && Valid(w, x0) && Chain(w, cidrs0[..index0] + [x0] + cidrs0[index0..])
    requires AllValid(w, cidrs0[..index0]) && AllValid(w, cidrs0[index0..])
    requires NoBuddies(w, cidrs0[..index0]) && NoBuddies(w, cidrs0[index0..])
    ensures index <= |cidrs| && Valid(w, x) && AllValid(w, cidrs) && AllValid(w, cidrs0)
    ensures Normal(w, cidrs[..index] + [x] + cidrs[index..])
    ensures forall a :: Covers(w, cidrs, a) || InBlock(w, x, a) <==> Covers(w, cidrs0, a) || InBlock(w, x0, a)
  {
    ghost var pre, suf := cidrs0[..index0], cidrs0[index0..];
    cidrs, index, x := cidrs0, index0, x0;
    assert cidrs0 == pre + suf;
    CoversJoinAll(w, pre, suf);
    var merging := true;
    while merging
      invariant cidrs == pre + suf && index == |pre| && Valid(w, x)
      invariant Chain(w, pre + [x] + suf) && AllValid(w, pre) && AllValid(w, suf)
      invariant NoBuddies(w, pre) && NoBuddies(w, suf)
      invariant AllValid(w, pre + suf)
      invariant forall a :: Covers(w, pre + suf, a) || InBlock(w, x, a) <==> Covers(w, cidrs0, a) || InBlock(w, x0, a)
      invariant !merging ==> |suf| > 0 ==> !Buddies(w, x, suf[0])
      invariant !merging ==> |pre| > 0 ==> !Buddies(w, pre[|pre| - 1], x)
      decreases Len(w, x) + (if merging then 1 else 0)
    {
      cidrs, index, x, merging, pre, suf := MergeRound(w, cidrs, index, x, g, pre, suf);
    }
    NoBuddiesJoin(w, pre, x, suf);
    assert cidrs[..index] == pre && cidrs[index..] == suf;
  }

  /** One turn of the merging loop: a look at the block after `x`, then at the block before. */
  method MergeRound(w: nat, cidrs: seq<Cidr>, index: nat, x: Cidr, g: Generation, ghost pre: seq<Cidr>, ghost suf: seq<Cidr>)
    returns (cidrs': seq<Cidr>, index': nat, x': Cidr, merged: bool, ghost pre': seq<Cidr>, ghost suf': seq<Cidr>)
    requires OctetWidth(w) && cidrs == pre + suf && index == |pre| && Valid(w, x)
    requires Chain(w, pre + [x] + suf) && AllValid(w, pre) && AllValid(w, suf)
    requires NoBuddies(w, pre) && NoBuddies(w, suf)
    ensures cidrs' == pre' + suf' && index' == |pre'| && Valid(w, x')
    ensures Chain(w, pre' + [x'] + suf') && AllValid(w, pre') && AllValid(w, suf')
    ensures NoBuddies(w, pre') && NoBuddies(w, suf') && AllValid(w, pre' + suf')
    ensures forall a :: Covers(w, pre' + suf', a) || InBlock(w, x', a) <==> Covers(w, pre + suf, a) || InBlock(w, x, a)
    ensures merged ==> Len(w, x') < Len(w, x)
    ensures !merged ==> x' == x && (|suf'| > 0 ==> !Buddies(w, x, suf'[0])) && (|pre'| > 0 ==> !Buddies(w, pre'[|pre'| - 1], x))
  {
    var mergedNext, mergedPrev;
    var cidrs1, x1;
    cidrs1, x1, mergedNext, suf' := MergeNextStep(w, cidrs, index, x, g, pre, suf);
    cidrs', index', x', mergedPrev, pre' := MergePrevStep(w, cidrs1, index, x1, g, pre, suf');
    merged := mergedNext || mergedPrev;
  }

  lemma CoversJoinAll(w: nat, p: seq<Cidr>, q: seq<Cidr>)
    requires AllValid(w, p) && AllValid(w, q)
    ensures AllValid(w, p + q)
  {
    assert forall i :: |p| <= i < |p + q| ==> (p + q)[i] == q[i - |p|];
  }

  /** One look at the block after `x`: when it is a buddy, the two become one block. */
  method MergeNextStep(w: nat, cidrs: seq<Cidr>, index: nat, x: Cidr, g: Generation, ghost pre: seq<Cidr>, ghost suf: seq<Cidr>)
    returns (cidrs': seq<Cidr>, x': Cidr, merged: bool, ghost suf': seq<Cidr>)
    requires OctetWidth(w) && cidrs == pre + suf && index == |pre| && Valid(w, x)
    requires Chain(w, pre + [x] + suf) && AllValid(w, pre) && AllValid(w, suf) && NoBuddies(w, suf)
    ensures cidrs' == pre + suf' && Valid(w, x') && Chain(w, pre + [x'] + suf')
    ensures AllValid(w, suf') && NoBuddies(w, suf') && AllValid(w, pre + suf) && AllValid(w, pre + suf')
    ensures forall a :: Covers(w, pre + suf', a) || InBlock(w, x', a) <==> Covers(w, pre + suf, a) || InBlock(w, x, a)
    ensures merged ==> Len(w, x') < Len(w, x)
    ensures !merged ==> x' == x && suf' == suf && (|suf| > 0 ==> !Buddies(w, x, suf[0]))
  {
    cidrs', x', merged, suf' := cidrs, x, false, suf;
    CoversJoinAll(w, pre, suf);
    if index < |cidrs| {
      var next := cidrs[index];
      assert next == suf[0];
      var nextBits := GetBits(w, next);
      var bits := GetBits(w, x);
      if bits == nextBits {
        ChainParts(w, pre, x, suf);
        NotWhole(w, x, next);
        var buddy := BuddyTest(w, x, next, bits, g);
        if buddy {
          MergeNext(w, pre, x, suf);
          x' := Rebuild(w, x.prefix, bits, g, x, next);
          cidrs' := cidrs[..index] + cidrs[index + 1..];
          suf' := suf[1..];
          assert cidrs' == pre + suf';
          merged := true;
        }
      }
    }
  }

  /** One look at the block before `x`: when it is a buddy, the two become one block. */
  method MergePrevStep(w: nat, cidrs: seq<Cidr>, index: nat, x: Cidr, g: Generation, ghost pre: seq<Cidr>, ghost suf: seq<Cidr>)
    returns (cidrs': seq<Cidr>, index': nat, x': Cidr, merged: bool, ghost pre': seq<Cidr>)
    requires OctetWidth(w) && cidrs == pre + suf && index == |pre| && Valid(w, x)
    requires Chain(w, pre + [x] + suf) && AllValid(w, pre) && AllValid(w, suf) && NoBuddies(w, pre)
    ensures cidrs' == pre' + suf && index' == |pre'| && Valid(w, x') && Chain(w, pre' + [x'] + suf)
    ensures AllValid(w, pre') && NoBuddies(w, pre') && AllValid(w, pre + suf) && AllValid(w, pre' + suf)
    ensures forall a :: Covers(w, pre' + suf, a) || InBlock(w, x', a) <==> Covers(w, pre + suf, a) || InBlock(w, x, a)
    ensures merged ==> Len(w, x') < Len(w, x)
    ensures !merged ==> x' == x && pre' == pre && (|pre| > 0 ==> !Buddies(w, pre[|pre| - 1], x))
  {
    cidrs', index', x', merged, pre' := cidrs, index, x, false, pre;
    CoversJoinAll(w, pre, suf);
    if index > 0 {
      var prev := cidrs[index - 1];
      assert prev == pre[|pre| - 1];
      var prevBits := GetBits(w, prev);
      var bits := GetBits(w, x);
      if bits == prevBits {
        ChainParts(w, pre, x, suf);
        NotWhole(w, prev, x);
        var buddy := BuddyTest(w, prev, x, bits, g);
        if buddy {
          MergePrev(w, pre, x, suf);
          cidrs' := cidrs[..index - 1] + cidrs[index..];
          index' := index - 1;
          x' := Rebuild(w, prev.prefix, prevBits, g, prev, x);
          pre' := pre[..|pre| - 1];
          assert cidrs' == pre' + suf;
          merged := true;
        }
      }
    }
  }
}
