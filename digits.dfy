/**
 * Big-endian digit strings of `m`-bit digits (bytes for m = 8, IPv6 segments for m = 16):
 * `to_be_bytes` / `from_be_bytes` and the 16-bit segment views of an address.
 */
module Digits {
  import opened Bits

  /** The `n` big-endian `m`-bit digits of `x` (of its low `m * n` bits when `x` is larger). */
  function ToBe(x: nat, n: nat, m: nat): (s: seq<nat>)
    ensures |s| == n
    ensures forall i :: 0 <= i < n ==> s[i] < Pow2(m)
    decreases n
  {
    if n == 0 then []
    else
      var b := Pow2(m);
      DivBounds(x, b);
      var r := ToBe(x / b, n - 1, m);
      assert forall i :: 0 <= i < n - 1 ==> r[i] < b;
      assert x % b < b;
      r + [x % b]
  }

  /** The number a big-endian string of `m`-bit digits denotes. */
  function FromBe(s: seq<nat>, m: nat): (x: nat)
  {
    if s == [] then 0 else FromBe(s[..|s| - 1], m) * Pow2(m) + s[|s| - 1]
  }

  predicate AreDigits(s: seq<nat>, m: nat)
  {
    forall i :: 0 <= i < |s| ==> s[i] < Pow2(m)
  }

  /** `b` to the power `n`. */
  function Pow(b: nat, n: nat): (r: nat)
    ensures b >= 1 ==> r >= 1
  {
    if n == 0 then 1 else Pow(b, n - 1) * b
  }

  lemma {:induction false} FromBeBound(s: seq<nat>, m: nat)
    requires AreDigits(s, m)
    ensures FromBe(s, m) < Pow(Pow2(m), |s|)
    decreases |s|
  {
    if s != [] {
      var n := |s|;
      var p, e := s[..n - 1], s[n - 1];
      var B := Pow2(m);
      assert AreDigits(p, m) by {
        assert forall i :: 0 <= i < n - 1 ==> p[i] == s[i];
      }
      FromBeBound(p, m);
      var P, y := Pow(B, n - 1), FromBe(p, m);
      assert FromBe(s, m) == y * B + e;
      assert e < B;
      BoundStep(y, e, P, B);
      assert Pow(B, n) == P * B;
    }
  }

  lemma {:induction false} BoundStep(y: nat, e: nat, p: nat, b: nat)
    requires y < p && e < b
    ensures y * b + e < p * b
  {
    MulMonoRight(y, p - 1, b);
    assert (p - 1) * b == p * b - b;
  }

  lemma {:induction false} MulMonoRight(x: nat, y: nat, b: nat)
    requires x <= y
    ensures x * b <= y * b
  {
  }

  /** Reading the digits of `x` back gives `x`. */
  lemma {:induction false} FromToBe(x: nat, n: nat, m: nat)
    requires x < Pow(Pow2(m), n)
    ensures FromBe(ToBe(x, n, m), m) == x
    decreases n
  {
    if n > 0 {
      var B := Pow2(m);
      var q, r := DivModOf(x, B, Pow(B, n - 1));
      FromToBe(q, n - 1, m);
      var t := ToBe(q, n - 1, m);
      var s := ToBe(x, n, m);
      assert s == t + [r];
      assert s[..n - 1] == t;
      assert FromBe(s, m) == FromBe(t, m) * B + r;
    }
  }

  /** Quotient and remainder of `x` by `b`, with the bound the quotient inherits. */
  lemma {:induction false} DivModOf(x: nat, b: nat, p: nat) returns (q: nat, r: nat)
    requires b > 0 && x < p * b
    ensures q == x / b && r == x % b && x == q * b + r && r < b && q < p
  {
    q, r := x / b, x % b;
    DivBound(x, b, p);
  }

  lemma {:induction false} DivBound(x: nat, b: nat, p: nat)
    requires b > 0 && x < p * b
    ensures x / b < p
  {
    if x / b >= p {
      assert b * (x / b) >= b * p by { Bits.MulMonoLeft(b, p, x / b); }
    }
  }

  /** Digit strings are the digits of the number they denote. */
  lemma {:induction false} ToFromBe(s: seq<nat>, m: nat)
    requires AreDigits(s, m)
    ensures ToBe(FromBe(s, m), |s|, m) == s
    decreases |s|
  {
    if s != [] {
      var n := |s|;
      var p := s[..n - 1];
      var x := FromBe(s, m);
      DivModUnique(x, Pow2(m), FromBe(p, m), s[n - 1]);
      ToFromBe(p, m);
      assert s == p + [s[n - 1]];
    }
  }

  /** `a / (b * c) == a / b / c`. */
  lemma {:induction false} DivDiv(a: nat, b: nat, c: nat)
    requires b > 0 && c > 0
    ensures a / (b * c) == (a / b) / c
  {
    DivBounds(a, b);
    var p: nat := a / b;
    DivBounds(p, c);
    var q: nat, t: nat, u: nat := p / c, p % c, a % b;
    Regroup3(a, b, c, p, q, t, u);
    var r := LowPart(b, c, t, u);
    DivModUnique(a, b * c, q, r);
  }

  /** The low digit of a two-level mixed-radix number stays below the combined radix. */
  lemma {:induction false} LowPart(b: nat, c: nat, t: nat, u: nat) returns (r: nat)
    requires t < c && u < b
    ensures r == b * t + u && r < b * c
  {
    r := b * t + u;
    Bits.MulMonoLeft(b, t, c - 1);
    Bits.MulSucc(c - 1, b);
  }

  lemma {:induction false} Regroup3(a: nat, b: nat, c: nat, p: nat, q: nat, t: nat, u: nat)
    requires b > 0 && c > 0 && p == a / b && u == a % b && q == p / c && t == p % c
    ensures u < b && t < c
    ensures a == (b * c) * q + (b * t + u)
  {
    assert a == b * p + u && p == c * q + t;
    calc {
      a;
      b * (c * q + t) + u;
      { assert b * (c * q + t) == b * (c * q) + b * t; }
      b * (c * q) + b * t + u;
      { assert b * (c * q) == (b * c) * q; }
      (b * c) * q + (b * t + u);
    }
  }

  /** Digit `i` of the big-endian string is `(x >> (m * (n - 1 - i))) % 2^m`. */
  lemma {:induction false} ToBeAt(x: nat, n: nat, m: nat, i: nat)
    requires i < n
    ensures ToBe(x, n, m)[i] == (x / Pow(Pow2(m), n - 1 - i)) % Pow2(m)
    decreases n
  {
    var B := Pow2(m);
    DivBounds(x, B);
    var t := ToBe(x / B, n - 1, m);
    assert ToBe(x, n, m) == t + [x % B];
    if i < n - 1 {
      ToBeAt(x / B, n - 1, m, i);
      var k := n - 2 - i;
      assert Pow(B, n - 1 - i) == Pow(B, k) * B;
      DivDiv(x, B, Pow(B, k));
      assert B * Pow(B, k) == Pow(B, k) * B;
    }
  }

  /** Each `2m`-bit digit split into its two `m`-bit halves, high first. */
  function Split(s: seq<nat>, m: nat): (t: seq<nat>)
    ensures |t| == 2 * |s|
  {
    if s == [] then [] else Split(s[..|s| - 1], m) + [s[|s| - 1] / Pow2(m), s[|s| - 1] % Pow2(m)]
  }

  lemma {:induction false} SplitAt(s: seq<nat>, m: nat, i: nat)
    requires i < |s|
    ensures Split(s, m)[2 * i] == s[i] / Pow2(m) && Split(s, m)[2 * i + 1] == s[i] % Pow2(m)
    decreases |s|
  {
    if i < |s| - 1 {
      SplitAt(s[..|s| - 1], m, i);
    }
  }

  lemma {:induction false} SplitDigits(s: seq<nat>, m: nat)
    requires AreDigits(s, 2 * m)
    ensures AreDigits(Split(s, m), m)
  {
    forall k | 0 <= k < |Split(s, m)|
      ensures Split(s, m)[k] < Pow2(m)
    {
      SplitAt(s, m, k / 2);
      Pow2Add(m, m);
      assert 2 * m == m + m;
      DivBound(s[k / 2], Pow2(m), Pow2(m));
      assert k == 2 * (k / 2) || k == 2 * (k / 2) + 1;
    }
  }

  /** Splitting `2m`-bit digits into `m`-bit halves does not change the number denoted. */
  lemma {:induction false} FromBeSplit(s: seq<nat>, m: nat)
    ensures FromBe(Split(s, m), m) == FromBe(s, 2 * m)
    decreases |s|
  {
    if s != [] {
      var n := |s|;
      var p, e := s[..n - 1], s[n - 1];
      var B := Pow2(m);
      var t := Split(p, m);
      FromBeSplit(p, m);
      var u := t + [e / B, e % B];
      assert Split(s, m) == u;
      assert u[..|u| - 1] == t + [e / B];
      assert (t + [e / B])[..|t|] == t;
      var y := FromBe(t, m);
      assert FromBe(u, m) == (y * B + e / B) * B + e % B;
      DivMod(e, B);
      assert Pow2(2 * m) == B * B by {
        assert 2 * m == m + m;
        Pow2Add(m, m);
      }
      Regroup(y, e / B, e % B, B);
      assert FromBe(s, 2 * m) == y * (B * B) + e;
    }
  }

  lemma {:induction false} Regroup(y: nat, h: nat, l: nat, b: nat)
    ensures (y * b + h) * b + l == y * (b * b) + (h * b + l)
  {
  }
}
