/**
 * `Ord::cmp` of the module generation's block types, written as the loops the source uses:
 * compare the prefixes digit by digit (bytes for IPv4, 16-bit segments for IPv6), then the
 * lengths.
 */
module Compare {
  import opened Bits
  import opened Digits
  import opened Segments
  import opened Masks
  import opened Wrappers
  import opened Cidrs

  /** What a comparison that can panic does: an ordering, or an out-of-bounds index. */
  datatype CmpOutcome = Done(order: Ordering) | IndexPanic

  /**
   * Two digit strings of the same length that agree before position `i` and differ at `i`
   * compare as their digits at `i` do: big-endian lexicographic order is numeric order.
   */
  lemma {:induction false} FirstDifference(a: seq<nat>, b: seq<nat>, m: nat, i: nat)
    requires |a| == |b| && i < |a| && AreDigits(a, m) && AreDigits(b, m)
    requires a[..i] == b[..i] && a[i] != b[i]
    ensures CmpNat(FromBe(a, m), FromBe(b, m)) == CmpNat(a[i], b[i])
    decreases |a|
  {
    var n := |a|;
    var p, q := a[..n - 1], b[..n - 1];
    var e, f := a[n - 1], b[n - 1];
    var B := Pow2(m);
    assert FromBe(a, m) == FromBe(p, m) * B + e;
    assert FromBe(b, m) == FromBe(q, m) * B + f;
    if i < n - 1 {
      assert p[..i] == a[..i] && q[..i] == b[..i];
      assert AreDigits(p, m) && AreDigits(q, m) by {
        assert forall j :: 0 <= j < n - 1 ==> p[j] == a[j] && q[j] == b[j];
      }
      FirstDifference(p, q, m, i);
      if FromBe(p, m) < FromBe(q, m) {
        BoundStep(FromBe(p, m), e, FromBe(q, m), B);
      } else {
        BoundStep(FromBe(q, m), f, FromBe(p, m), B);
      }
    } else {
      assert p == a[..i] && q == b[..i];
    }
  }

  /** The digits of two numbers first differ at `i`: the numbers compare as those digits. */
  lemma DigitOrder(x: nat, y: nat, n: nat, m: nat, i: nat)
    requires x < Pow(Pow2(m), n) && y < Pow(Pow2(m), n) && i < n
    requires ToBe(x, n, m)[..i] == ToBe(y, n, m)[..i] && ToBe(x, n, m)[i] != ToBe(y, n, m)[i]
    ensures CmpNat(x, y) == CmpNat(ToBe(x, n, m)[i], ToBe(y, n, m)[i])
  {
    FromToBe(x, n, m);
    FromToBe(y, n, m);
    FirstDifference(ToBe(x, n, m), ToBe(y, n, m), m, i);
  }

  /** Numbers with the same digits are equal. */
  lemma SameDigits(x: nat, y: nat, n: nat, m: nat)
    requires x < Pow(Pow2(m), n) && y < Pow(Pow2(m), n)
    requires ToBe(x, n, m) == ToBe(y, n, m)
    ensures x == y
  {
    FromToBe(x, n, m);
    FromToBe(y, n, m);
  }

  lemma AgreeOneMore(a: seq<nat>, b: seq<nat>, i: nat)
    requires i < |a| && i < |b| && a[..i] == b[..i] && a[i] == b[i]
    ensures a[..i + 1] == b[..i + 1]
  {
    assert a[..i + 1] == a[..i] + [a[i]] && b[..i + 1] == b[..i] + [b[i]];
  }

  lemma AgreeAll(a: seq<nat>, b: seq<nat>, n: nat)
    requires n == |a| == |b| && a[..n] == b[..n]
    ensures a == b
  {
    assert a == a[..n] && b == b[..n];
  }

  /** `get_bits`: `mask_to_bits(mask).unwrap()`, which never panics on a valid block. */
  method GetBits(w: nat, c: Cidr) returns (bits: nat)
    requires 2 <= w && Valid(w, c)
    ensures bits == Len(w, c)
  {
    var r := MaskToBits(w, c.mask);
    bits := r.value;
  }

  /** IPv4 `cmp`: the four prefix bytes in turn, then the lengths. */
  method CmpV4(c: Cidr, d: Cidr) returns (o: Ordering)
    requires Valid(32, c) && Valid(32, d)
    ensures o == Order(32, c, d)
  {
    var a := ToBe(c.prefix, 4, 8);
    var b := ToBe(d.prefix, 4, 8);
    PowPow2(8, 4);
    var i := 0;
    while i < 4
      invariant 0 <= i <= 4 && a[..i] == b[..i]
    {
      var r := CmpNat(a[i], b[i]);
      if r != Equal {
        DigitOrder(c.prefix, d.prefix, 4, 8, i);
        return r;
      }
      AgreeOneMore(a, b, i);
      i := i + 1;
    }
    AgreeAll(a, b, 4);
    SameDigits(c.prefix, d.prefix, 4, 8);
    var l1 := GetBits(32, c);
    var l2 := GetBits(32, d);
    o := CmpNat(l1, l2);
  }

  /**
   * IPv6 `cmp` as written: the loop runs over `0..16` but the segment arrays have 8 entries,
   * so two blocks with the same prefix reach index 8 and panic; the length tie-break is
   * never reached.
   */
  method CmpV6(c: Cidr, d: Cidr) returns (r: CmpOutcome)
    requires Valid(128, c) && Valid(128, d)
    ensures r.IndexPanic? <==> c.prefix == d.prefix
    ensures r.Done? ==> r.order == Order(128, c, d)
  {
    var a := U128ToU16Array(c.prefix);
    var b := U128ToU16Array(d.prefix);
    PowPow2(16, 8);
    assert |a| == 8 && |b| == 8;
    var i := 0;
    while i < 16
      invariant 0 <= i <= 8 && a[..i] == b[..i]
    {
      if i >= |a| {
        AgreeAll(a, b, i);
        SameDigits(c.prefix, d.prefix, 8, 16);
        return IndexPanic;
      }
      var o := CmpNat(a[i], b[i]);
      if o != Equal {
        DigitOrder(c.prefix, d.prefix, 8, 16, i);
        return Done(o);
      }
      AgreeOneMore(a, b, i);
      i := i + 1;
    }
    assert false;
  }

  /** IPv6 `cmp` with the loop bounded by the 8 segments: the intended order. */
  method CmpV6Fixed(c: Cidr, d: Cidr) returns (o: Ordering)
    requires Valid(128, c) && Valid(128, d)
    ensures o == Order(128, c, d)
  {
    var a := U128ToU16Array(c.prefix);
    var b := U128ToU16Array(d.prefix);
    PowPow2(16, 8);
    var i := 0;
    while i < 8
      invariant 0 <= i <= 8 && a[..i] == b[..i]
    {
      var r := CmpNat(a[i], b[i]);
      if r != Equal {
        DigitOrder(c.prefix, d.prefix, 8, 16, i);
        return r;
      }
      AgreeOneMore(a, b, i);
      i := i + 1;
    }
    AgreeAll(a, b, 8);
    SameDigits(c.prefix, d.prefix, 8, 16);
    var l1 := GetBits(128, c);
    var l2 := GetBits(128, d);
    o := CmpNat(l1, l2);
  }

  /**
   * Any block against its first half (`::/0` against `::/1`, say): the as-written comparison
   * panics where the intended order says `Less`.
   */
  method CmpV6PanicWitness(c: Cidr) returns (r: CmpOutcome, o: Ordering)
    requires Valid(128, c) && Len(128, c) < 128
    ensures r == IndexPanic && o == Less
  {
    var len := Len(128, c);
    Pow2Divides(128 - len - 1, 128 - len);
    DivisibleMultiple(c.prefix, Pow2(128 - len - 1), Pow2(128 - len));
    var d := Block(128, c.prefix, len + 1);
    r := CmpV6(c, d);
    o := CmpV6Fixed(c, d);
  }
}
