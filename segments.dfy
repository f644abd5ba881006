/**
 * The 16-bit segment view of a 128-bit IPv6 address: `u128_to_u16_array` and
 * `u16_array_to_u128`, which go through the address's 16 big-endian bytes.
 */
module Segments {
  import opened Bits
  import opened Digits

  lemma {:induction false} PowPow2(m: nat, n: nat)
    ensures Pow(Pow2(m), n) == Pow2(m * n)
    decreases n
  {
    if n > 0 {
      PowPow2(m, n - 1);
      assert m * n == m * (n - 1) + m;
      Pow2Add(m * (n - 1), m);
    }
  }

  lemma {:induction false} Radixes()
    ensures Pow2(8) == 256 && Pow2(16) == 65536
  {
  }

  lemma {:induction false} Widths()
    ensures Pow2(8) == 256 && Pow2(16) == 65536
    ensures Pow(Pow2(8), 16) == Pow2(128) && Pow(Pow2(16), 8) == Pow2(128)
  {
    DigitWidths();
    PowPow2(8, 16);
    PowPow2(16, 8);
  }

  /** An octet holds values below 256, a segment values below 65536. */
  lemma DigitWidths()
    ensures Pow2(8) == 256 && Pow2(16) == 65536
  {
  }

  /** The bytes of a 128-bit word are its 16-bit segments, each split high byte first. */
  lemma {:induction false} BytesAreSplitSegments(x: nat)
    requires x < Pow2(128)
    ensures ToBe(x, 16, 8) == Split(ToBe(x, 8, 16), 8)
  {
    Widths();
    var s := ToBe(x, 8, 16);
    FromToBe(x, 8, 16);
    FromBeSplit(s, 8);
    assert 2 * 8 == 16;
    SplitDigits(s, 8);
    ToFromBe(Split(s, 8), 8);
  }

  /** A segment is its high byte times 256 plus its low byte. */
  lemma {:induction false} JoinSplit(s: seq<nat>, i: nat)
    requires i < |s|
    ensures Split(s, 8)[2 * i] * 256 + Split(s, 8)[2 * i + 1] == s[i]
  {
    SplitAt(s, 8, i);
    Radixes();
  }

  /** Segment `i` of `x` is `(x >> (16 * (7 - i))) & 0xffff`. */
  lemma {:induction false} SegmentAt(x: nat, i: nat)
    requires i < 8
    ensures ToBe(x, 8, 16)[i] == (x / Pow2(16 * (7 - i))) % 65536
  {
    ToBeAt(x, 8, 16, i);
    PowPow2(16, 7 - i);
    Radixes();
  }

  /** `u128_to_u16_array(x)`: eight big-endian 16-bit segments built from the bytes. */
  method U128ToU16Array(x: nat) returns (o: seq<nat>)
    requires x < Pow2(128)
    ensures o == ToBe(x, 8, 16)
  {
    var a := ToBe(x, 16, 8);
    ghost var s := ToBe(x, 8, 16);
    BytesAreSplitSegments(x);
    o := seq(8, _ => 0);
    var i := 0;
    while i < 8
      invariant 0 <= i <= 8 && |o| == 8
      invariant forall j :: 0 <= j < i ==> o[j] == s[j]
    {
      JoinSplit(s, i);
      o := o[i := a[2 * i] * 256 + a[2 * i + 1]];
      i := i + 1;
    }
    assert o == s;
  }

  /** Splitting one more digit appends its two halves. */
  lemma {:induction false} SplitSnoc(s: seq<nat>, i: nat, m: nat)
    requires i < |s|
    ensures Split(s[..i + 1], m) == Split(s[..i], m) + [s[i] / Pow2(m), s[i] % Pow2(m)]
  {
    assert s[..i + 1][..i] == s[..i];
  }

  /** Writing two neighbouring entries extends the prefix before them by those two values. */
  lemma {:induction false} SetPair(a: seq<nat>, k: nat, x: nat, y: nat)
    requires k + 1 < |a|
    ensures a[k := x][k + 1 := y][..k + 2] == a[..k] + [x, y]
  {
  }

  /** `u16_array_to_u128(segments)`: split each segment into two bytes, read big-endian. */
  method U16ArrayToU128(segments: seq<nat>) returns (r: nat)
    requires |segments| == 8 && AreDigits(segments, 16)
    ensures r == FromBe(segments, 16)
    ensures r < Pow2(128)
  {
    Radixes();
    var a := seq(16, _ => 0);
    var i := 0;
    while i < 8
      invariant 0 <= i <= 8 && |a| == 16
      invariant a[..2 * i] == Split(segments[..i], 8)
    {
      var e := segments[i];
      SplitSnoc(segments, i, 8);
      SetPair(a, 2 * i, e / 256, e % 256);
      a := a[2 * i := e / 256][2 * i + 1 := e % 256];
      i := i + 1;
    }
    assert a == a[..16] && segments == segments[..8];
    r := FromBe(a, 8);
    FromBeSplit(segments, 8);
    assert 2 * 8 == 16;
    FromBeBound(segments, 16);
    PowPow2(16, 8);
  }

  /** `u16_array_to_u128(u128_to_u16_array(x)) == x`. */
  method SegmentsRoundTrip(x: nat) returns (y: nat)
    requires x < Pow2(128)
    ensures y == x
  {
    var o := U128ToU16Array(x);
    y := U16ArrayToU128(o);
    Widths();
    FromToBe(x, 8, 16);
  }

  /** `u128_to_u16_array(u16_array_to_u128(s)) == s` for eight 16-bit segments. */
  method U16ArrayRoundTrip(segments: seq<nat>) returns (t: seq<nat>)
    requires |segments| == 8 && AreDigits(segments, 16)
    ensures t == segments
  {
    var x := U16ArrayToU128(segments);
    t := U128ToU16Array(x);
    ToFromBe(segments, 16);
  }
}
