/**
 * The memory layout the transmute generation relies on. Its `u32` and `u128` words are
 * reinterpretations of big-endian octet arrays, so on a little-endian host the integer a
 * word holds is the byte-swap of the address it stands for. `Swap` is that reinterpretation;
 * it moves address bit `w - 1 - d` (the `d`-th from the top) to word bit `Pos(d)`, commutes
 * with the bitwise operators, and is its own inverse.
 */
module Layout {
  import opened Bits
  import opened Digits
  import opened Segments
  import opened Masks
  import opened Wrappers

  /** The digits of `s` in the opposite order. */
  function Reverse(s: seq<nat>): (t: seq<nat>)
    ensures |t| == |s| && forall i :: 0 <= i < |s| ==> t[i] == s[|s| - 1 - i]
  {
    seq(|s|, i requires 0 <= i < |s| => s[|s| - 1 - i])
  }

  /**
   * The integer a little-endian host reads from the `n` octets of `x` stored most
   * significant first; read the other way round, the same function takes a word back to the
   * address it was made from.
   */
  function Swap(n: nat, x: nat): (r: nat)
    requires x < Pow2(8 * n)
    ensures r < Pow2(8 * n)
  {
    var t := ToBe(x, n, 8);
    FromBeBound(Reverse(t), 8);
    PowPow2(8, n);
    FromBe(Reverse(t), 8)
  }

  /** Word bit that holds the `d`-th address bit from the top: same octet, mirrored inside it. */
  function Pos(d: nat): (j: nat)
    ensures j / 8 == d / 8 && j % 8 == 7 - d % 8
  {
    var j := 8 * (d / 8) + (7 - d % 8);
    DivModUnique(j, 8, d / 8, 7 - d % 8);
    j
  }

  /** `Pos` keeps a position inside its octet, so inside the word, and undoes itself. */
  lemma {:induction false} PosInvolution(n: nat, d: nat)
    requires d < 8 * n
    ensures Pos(d) < 8 * n && Pos(Pos(d)) == d
  {
    DivModUnique(d, 8, d / 8, d % 8);
  }

  /** Bit `8 j + b` of a big-endian digit string is bit `b` of its `j`-th digit from the end. */
  lemma {:induction false} BitOfBe(s: seq<nat>, j: nat, b: nat)
    requires AreDigits(s, 8) && j < |s| && b < 8
    ensures Bit(FromBe(s, 8), 8 * j + b) == Bit(s[|s| - 1 - j], b)
    decreases |s|
  {
    var n := |s|;
    var p := s[..n - 1];
    assert FromBe(s, 8) == FromBe(p, 8) * Pow2(8) + s[n - 1];
    BitSplit(FromBe(p, 8), s[n - 1], 8, 8 * j + b);
    if j > 0 {
      assert AreDigits(p, 8) by {
        assert forall i :: 0 <= i < n - 1 ==> p[i] == s[i];
      }
      BitOfBe(p, j - 1, b);
      assert 8 * j + b - 8 == 8 * (j - 1) + b;
    }
  }

  /** The swap moves the `d`-th address bit from the top to word bit `Pos(d)`. */
  lemma {:induction false} SwapBit(n: nat, x: nat, d: nat)
    requires x < Pow2(8 * n) && d < 8 * n
    ensures Bit(Swap(n, x), Pos(d)) == Bit(x, 8 * n - 1 - d)
  {
    var t := ToBe(x, n, 8);
    PosSplit(n, d);
    PowPow2(8, n);
    FromToBe(x, n, 8);
    ReversedBit(t, d / 8, 7 - d % 8);
  }

  /** Reversing the octets moves bit `b` of octet `j` from the end to octet `j` from the start. */
  lemma ReversedBit(t: seq<nat>, j: nat, b: nat)
    requires AreDigits(t, 8) && j < |t| && b < 8
    ensures Bit(FromBe(Reverse(t), 8), 8 * j + b) == Bit(FromBe(t, 8), 8 * (|t| - 1 - j) + b)
  {
    assert AreDigits(Reverse(t), 8);
    BitOfBe(Reverse(t), j, b);
    BitOfBe(t, |t| - 1 - j, b);
  }

  /** Address bit `d` from the top sits in octet `d / 8`, counted from either end. */
  lemma PosSplit(n: nat, d: nat)
    requires d < 8 * n
    ensures d / 8 < n && 7 - d % 8 < 8
    ensures Pos(d) == 8 * (d / 8) + (7 - d % 8)
    ensures 8 * n - 1 - d == 8 * (n - 1 - d / 8) + (7 - d % 8)
  {
    DivModUnique(d, 8, d / 8, d % 8);
  }

  /** Every word bit, read back through the swap. */
  lemma {:induction false} SwapBitAt(n: nat, x: nat, j: nat)
    requires x < Pow2(8 * n) && j < 8 * n
    ensures Pos(j) < 8 * n && Bit(Swap(n, x), j) == Bit(x, 8 * n - 1 - Pos(j))
  {
    PosInvolution(n, j);
    SwapBit(n, x, Pos(j));
  }

  /** Swapping twice gives the word back, so the swap is a bijection on `8 n`-bit words. */
  lemma {:induction false} SwapInvolution(n: nat, x: nat)
    requires x < Pow2(8 * n)
    ensures Swap(n, Swap(n, x)) == x
  {
    var t := ToBe(x, n, 8);
    var r := Reverse(t);
    assert AreDigits(r, 8);
    ToFromBe(r, 8);
    assert Reverse(r) == t;
    PowPow2(8, n);
    FromToBe(x, n, 8);
  }

  lemma {:induction false} SwapInjective(n: nat, x: nat, y: nat)
    requires x < Pow2(8 * n) && y < Pow2(8 * n)
    ensures Swap(n, x) == Swap(n, y) <==> x == y
  {
    SwapInvolution(n, x);
    SwapInvolution(n, y);
  }

  /** The swap of a bitwise `^`: octet by octet, so it commutes with the swap. */
  lemma {:induction false} SwapXor(n: nat, a: nat, b: nat)
    requires a < Pow2(8 * n) && b < Pow2(8 * n)
    ensures Swap(n, Xor(a, b, 8 * n)) == Xor(Swap(n, a), Swap(n, b), 8 * n)
  {
    var w := 8 * n;
    forall j | 0 <= j < w
      ensures Bit(Swap(n, Xor(a, b, w)), j) == Bit(Xor(Swap(n, a), Swap(n, b), w), j)
    {
      SwapBitAt(n, Xor(a, b, w), j);
      SwapBitAt(n, a, j);
      SwapBitAt(n, b, j);
      XorBit(a, b, w, w - 1 - Pos(j));
      XorBit(Swap(n, a), Swap(n, b), w, j);
    }
    BitExtensional(Swap(n, Xor(a, b, w)), Xor(Swap(n, a), Swap(n, b), w), w);
  }

  /** The swap of a bitwise `&`. */
  lemma {:induction false} SwapAnd(n: nat, a: nat, b: nat)
    requires a < Pow2(8 * n) && b < Pow2(8 * n)
    ensures Swap(n, And(a, b, 8 * n)) == And(Swap(n, a), Swap(n, b), 8 * n)
  {
    var w := 8 * n;
    forall j | 0 <= j < w
      ensures Bit(Swap(n, And(a, b, w)), j) == Bit(And(Swap(n, a), Swap(n, b), w), j)
    {
      SwapBitAt(n, And(a, b, w), j);
      SwapBitAt(n, a, j);
      SwapBitAt(n, b, j);
      AndBit(a, b, w, w - 1 - Pos(j));
      AndBit(Swap(n, a), Swap(n, b), w, j);
    }
    BitExtensional(Swap(n, And(a, b, w)), And(Swap(n, a), Swap(n, b), w), w);
  }

  /** One word bit of the swapped `1 << k`. */
  lemma {:induction false} SwapPow2Bit(n: nat, k: nat, j: nat)
    requires k < 8 * n && j < 8 * n && Pow2(k) < Pow2(8 * n)
    ensures Bit(Swap(n, Pow2(k)), j) <==> j == Pos(8 * n - 1 - k)
  {
    SwapBitAt(n, Pow2(k), j);
    Pow2Bit(k, 8 * n - 1 - Pos(j));
    PosMirror(n, j, 8 * n - 1 - k);
  }

  /** `Pos` pairs word bits with address bits one to one. */
  lemma PosMirror(n: nat, j: nat, d: nat)
    requires j < 8 * n && d < 8 * n
    ensures Pos(j) < 8 * n && (Pos(j) == d <==> j == Pos(d))
  {
    PosInvolution(n, j);
    PosInvolution(n, d);
  }

  /** A `w`-bit word whose only set bit is `p` is `1 << p`. */
  lemma {:induction false} PointBits(s: nat, p: nat, w: nat)
    requires s < Pow2(w) && p < w
    requires forall j :: 0 <= j < w ==> (Bit(s, j) <==> j == p)
    ensures s == Pow2(p)
  {
    Pow2Mono(p + 1, w);
    forall j | 0 <= j < w
      ensures Bit(s, j) == Bit(Pow2(p), j)
    {
      Pow2Bit(p, j);
    }
    BitExtensional(s, Pow2(p), w);
  }

  /** The single address bit `k` lands on the single word bit `Pos(w - 1 - k)`. */
  lemma {:induction false} SwapPow2(n: nat, k: nat)
    requires k < 8 * n
    ensures Pow2(k) < Pow2(8 * n) && Swap(n, Pow2(k)) == Pow2(Pos(8 * n - 1 - k))
  {
    Pow2Mono(k + 1, 8 * n);
    PosInvolution(n, 8 * n - 1 - k);
    forall j | 0 <= j < 8 * n
      ensures Bit(Swap(n, Pow2(k)), j) <==> j == Pos(8 * n - 1 - k)
    {
      SwapPow2Bit(n, k, j);
    }
    PointBits(Swap(n, Pow2(k)), Pos(8 * n - 1 - k), 8 * n);
  }

  /** Reducing modulo `2^w` keeps the bits below `w`. */
  lemma {:induction false} BitMod(y: nat, w: nat, i: nat)
    requires i < w
    ensures Bit(y % Pow2(w), i) == Bit(y, i)
  {
    var p := Pow2(w);
    var q, z := y / p, y % p;
    DivMod(y, p);
    BitSplit(q, z, w, i);
  }

  /** `z >> (w - 1)` of a `w`-bit word is its top bit, as 0 or 1. */
  lemma {:induction false} TopBit(z: nat, w: nat)
    requires 1 <= w && z < Pow2(w)
    ensures Shr(z, w - 1) == if Bit(z, w - 1) then 1 else 0
  {
    var p := Pow2(w - 1);
    assert Pow2(w) == 2 * p;
    var q, r := z / p, z % p;
    assert z == p * q + r;
    if q >= 2 {
      MulMonoLeft(p, 2, q);
      assert false;
    }
    BitIsShift(z, w - 1);
  }

  /** `(x << index) >> (w - 1)`: the bit at `w - 1 - index`, as 0 or 1. */
  lemma {:induction false} TopAfterShift(x: nat, index: nat, w: nat)
    requires index < w
    ensures Shr(Shl(x, index, w), w - 1) == if Bit(x, w - 1 - index) then 1 else 0
  {
    var y := x * Pow2(index);
    BitMod(y, w, w - 1);
    BitSplit(x, 0, index, w - 1);
    TopBit(Shl(x, index, w), w);
  }

  /** `(1 << hi) >> e` on a `w`-bit word, with `e <= hi < w`: the single bit `hi - e`. */
  lemma {:induction false} ShiftedOne(hi: nat, e: nat, w: nat)
    requires e <= hi < w
    ensures Shr(Shl(1, hi, w), e) == Pow2(hi - e)
  {
    Pow2Mono(hi + 1, w);
    DivModUnique(Pow2(hi), Pow2(w), 0, Pow2(hi));
    Pow2Add(hi - e, e);
    DivModUnique(Pow2(hi), Pow2(e), Pow2(hi - e), 0);
  }

  /**
   * The buddy bit of the transmute combiner, `1 << (bits - 1) / 8 * 8 + 7 >> (bits - 1) % 8`,
   * is the single word bit that holds address bit `w - bits`.
   */
  function BuddyWord(n: nat, bits: nat): (r: nat)
    requires 1 <= bits <= 8 * n
    ensures Pow2(8 * n - bits) < Pow2(8 * n) && r == Swap(n, Pow2(8 * n - bits))
  {
    var hi, e := (bits - 1) / 8 * 8 + 7, (bits - 1) % 8;
    assert hi < 8 * n;
    ShiftedOne(hi, e, 8 * n);
    SwapPow2(n, 8 * n - bits);
    Shr(Shl(1, hi, 8 * n), e)
  }

  /**
   * The transmute buddy test on the stored words, `stored(q) ^ stored(p) == BuddyWord`, holds
   * exactly when the addresses differ in bit `w - bits` alone: the test the other generations
   * write as `q ^ p == 1 << (w - bits)`.
   */
  lemma {:induction false} BuddyWordTest(n: nat, p: nat, q: nat, bits: nat)
    requires p < Pow2(8 * n) && q < Pow2(8 * n) && 1 <= bits <= 8 * n
    ensures Xor(Swap(n, q), Swap(n, p), 8 * n) == BuddyWord(n, bits) <==> Xor(q, p, 8 * n) == Pow2(8 * n - bits)
  {
    var w := 8 * n;
    SwapXor(n, q, p);
    SwapPow2(n, w - bits);
    SwapInjective(n, Xor(q, p, w), Pow2(w - bits));
  }

  //
  // `get_mask` and `mask_to_bits` of the transmute generation.
  //

  /** The octets of the length-`len` mask: all ones, then a partial octet, then zeros. */
  function MaskOctet(len: nat, i: int): (b: nat)
    requires 0 <= i
    ensures b < 256
  {
    if len >= 8 * i + 8 then 255
    else if len <= 8 * i then 0
    else Mask(8, len - 8 * i)
  }

  function MaskOctets(n: nat, len: nat): (s: seq<nat>)
    ensures |s| == n && forall i :: 0 <= i < n ==> s[i] == MaskOctet(len, i)
  {
    seq(n, i requires 0 <= i => MaskOctet(len, i))
  }

  /** A zero octet appended: the mask times 256, when the length ends before that octet. */
  lemma {:induction false} MaskShiftOctet(k: nat, len: nat)
    requires len <= k
    ensures Mask(k, len) * 256 == Mask(k + 8, len)
  {
    Pow2Add(k, 8);
    Pow2Add(k - len, 8);
  }

  /** All-ones octets followed by the partial octet of a length that ends in the last one. */
  lemma {:induction false} MaskLastOctet(k: nat, len: nat)
    requires k <= len <= k + 8
    ensures Mask(k, k) * 256 + Mask(8, len - k) == Mask(k + 8, len)
  {
    Pow2Add(k, 8);
  }

  /** Those octets read most significant first make the `8 n`-bit mask. */
  lemma {:induction false} MaskOctetsValue(n: nat, len: nat)
    requires len <= 8 * n
    ensures FromBe(MaskOctets(n, len), 8) == Mask(8 * n, len)
    decreases n
  {
    if n > 0 {
      var s := MaskOctets(n, len);
      var k := 8 * (n - 1);
      var l' := if len <= k then len else k;
      assert s[..n - 1] == MaskOctets(n - 1, l');
      MaskOctetsValue(n - 1, l');
      assert FromBe(s, 8) == Mask(k, l') * Pow2(8) + s[n - 1];
      if len <= k {
        MaskShiftOctet(k, len);
      } else {
        MaskLastOctet(k, len);
      }
    }
  }

  /** `0xFF << (8 - d)` on an octet, for `0 < d < 8`: the top `d` bits of the octet. */
  lemma {:induction false} PartialOctet(d: nat)
    requires 0 < d < 8
    ensures Shl(255, 8 - d, 8) == Mask(8, d)
  {
    var p := Pow2(8 - d);
    Pow2Mono(8 - d, 7);
    DivModUnique(255 * p, 256, p - 1, 256 - p);
  }

  /**
   * `get_mask(bits)` of the transmute generation: fill `bits / 8` octets with 255, put
   * `0xFF << (8 - bits % 8)` in the next one, and reinterpret the octets as a word. The octets
   * are the mask's big-endian ones, so the word is the mask's swap. (Callers pass
   * `bits <= 8 n`; a longer one would index past the array.)
   */
  method GetMaskLe(n: nat, bits: nat) returns (word: nat, octets: seq<nat>)
    requires bits <= 8 * n
    ensures octets == ToBe(Mask(8 * n, bits), n, 8)
    ensures word == Swap(n, Mask(8 * n, bits))
  {
    var a := new nat[n](_ => 0);
    var l := bits / 8;
    var i := 0;
    while i < l
      invariant i <= l <= n
      invariant forall j :: 0 <= j < i ==> a[j] == 255
      invariant forall j :: i <= j < n ==> a[j] == 0
    {
      a[i] := 255;
      i := i + 1;
    }
    var d := bits % 8;
    if d > 0 {
      PartialOctet(d);
      a[l] := Shl(255, 8 - d, 8);
    }
    octets := a[..];
    assert octets == MaskOctets(n, bits);
    MaskOctetsValue(n, bits);
    assert AreDigits(octets, 8);
    ToFromBe(octets, 8);
    word := FromBe(Reverse(octets), 8);
  }

  /** The word bit `mask_to_bits` inspects for the `digit`-th address bit from the top. */
  function ScanIndex(n: nat, digit: nat): (index: nat)
    requires digit < 8 * n
    ensures index < 8 * n && 8 * n - 1 - index == Pos(digit)
  {
    (n - 1 - digit / 8) * 8 + digit % 8
  }

  /** `(word << index) >> (w - 1)` at the scan index of `digit` is that address bit of `Swap(word)`. */
  lemma {:induction false} ScanReads(n: nat, word: nat, digit: nat)
    requires word < Pow2(8 * n) && digit < 8 * n
    ensures Shr(Shl(word, ScanIndex(n, digit), 8 * n), 8 * n - 1) == if Bit(Swap(n, word), 8 * n - 1 - digit) then 1 else 0
  {
    TopAfterShift(word, ScanIndex(n, digit), 8 * n);
    SwapInvolution(n, word);
    SwapBit(n, Swap(n, word), digit);
  }

  /** One step of the scan: `(word << index) >> (w - 1)`, the address bit `digit` from the top. */
  method ScanBit(n: nat, word: nat, digit: nat) returns (bit: nat)
    requires word < Pow2(8 * n) && digit < 8 * n
    ensures bit == if Bit(Swap(n, word), 8 * n - 1 - digit) then 1 else 0
  {
    ScanReads(n, word, digit);
    bit := Shr(Shl(word, ScanIndex(n, digit), 8 * n), 8 * n - 1);
  }

  /**
   * `mask_to_bits(mask)` of the transmute generation: count address bits from the top,
   * reading each through the byte layout, until the first 0; then check that no 1 follows.
   * It finds the length of the mask whose memory image the word is.
   */
  method MaskToBitsLe(n: nat, word: nat) returns (r: Option<nat>)
    requires 1 <= n && word < Pow2(8 * n)
    ensures r == MaskLength(8 * n, Swap(n, word))
  {
    var w := 8 * n;
    ghost var m := Swap(n, word);
    var digit := 0;
    var b := w;
    var k := 0;
    while k < w
      invariant k == digit <= w && b == w
      invariant forall i :: w - digit <= i < w ==> Bit(m, i)
    {
      var bit := ScanBit(n, word, digit);
      digit := digit + 1;
      if bit == 0 {
        b := digit - 1;
        break;
      }
      k := k + 1;
    }
    assert b < w ==> !Bit(m, w - 1 - b) && digit == b + 1;
    assert forall i :: w - b <= i < w ==> Bit(m, i);
    var e := digit;
    while e < w
      invariant digit <= e <= w
      invariant forall i :: w - e <= i < w - digit ==> !Bit(m, i)
    {
      var bit := ScanBit(n, word, e);
      if bit == 1 {
        assert !IsContiguous(w, m) by {
          assert !Bit(m, w - 1 - b) && Bit(m, w - 1 - e);
        }
        return None;
      }
      e := e + 1;
    }
    forall i | 0 <= i < w
      ensures Bit(m, i) <==> w - b <= i
    {
    }
    MaskOfBits(w, m, b);
    MaskIsContiguous(w, b);
    r := Some(b);
  }

  /** The transmute `mask_to_bits(get_mask(bits))` is `Some(bits)`. */
  method MaskToBitsLeOfGetMask(n: nat, bits: nat) returns (r: Option<nat>)
    requires 1 <= n && bits <= 8 * n
    ensures r == Some(bits)
  {
    var word, _ := GetMaskLe(n, bits);
    r := MaskToBitsLe(n, word);
    SwapInvolution(n, Mask(8 * n, bits));
    MaskRoundTrip(8 * n, bits);
  }
}
