/**
 * Length-to-mask and mask-to-length conversion for `w`-bit addresses
 * (`get_mask` and `mask_to_bits` of the IPv4 and IPv6 function files, w = 32 or 128).
 */
module Masks {
  import opened Bits
  import opened Wrappers

  /** The network mask of a length-`len` block: the top `len` of `w` bits set. */
  function Mask(w: nat, len: nat): (m: nat)
    requires len <= w
    ensures m < Pow2(w)
  {
    HighOnes(w, w - len)
  }

  /** The mask has exactly its top `len` bits set. */
  lemma MaskBit(w: nat, len: nat, i: nat)
    requires len <= w && i < w
    ensures Bit(Mask(w, len), i) <==> w - len <= i
  {
    HighOnesBit(w, w - len, i);
  }

  /** No 1 bit of `m` lies below a 0 bit (within the low `w` bits). */
  predicate IsContiguous(w: nat, m: nat)
  {
    forall i, j :: 0 <= j < i < w && !Bit(m, i) ==> !Bit(m, j)
  }

  /** The number of consecutive 1 bits of `m` counted down from bit `w - 1`. */
  function LeadingOnes(m: nat, w: nat): (r: nat)
    ensures r <= w
  {
    if w == 0 then 0 else if Bit(m, w - 1) then 1 + LeadingOnes(m, w - 1) else 0
  }

  lemma {:induction false} LeadingOnesBits(m: nat, w: nat, i: nat)
    requires i < w
    ensures w - LeadingOnes(m, w) <= i ==> Bit(m, i)
    ensures LeadingOnes(m, w) < w ==> !Bit(m, w - 1 - LeadingOnes(m, w))
    decreases w
  {
    if Bit(m, w - 1) && i < w - 1 {
      LeadingOnesBits(m, w - 1, i);
    } else if Bit(m, w - 1) && w - 1 > 0 {
      LeadingOnesBits(m, w - 1, 0);
    }
  }

  lemma {:induction false} LeadingOnesOfBits(m: nat, w: nat, len: nat)
    requires len <= w
    requires forall i :: w - len <= i < w ==> Bit(m, i)
    requires len < w ==> !Bit(m, w - 1 - len)
    ensures LeadingOnes(m, w) == len
    decreases w
  {
    if len > 0 {
      assert Bit(m, w - 1);
      LeadingOnesOfBits(m, w - 1, len - 1);
    }
  }

  /** A word whose bits at and above `w - len` are set and all others clear is the mask. */
  lemma MaskOfBits(w: nat, m: nat, len: nat)
    requires m < Pow2(w) && len <= w
    requires forall i :: 0 <= i < w ==> (Bit(m, i) <==> w - len <= i)
    ensures m == Mask(w, len)
  {
    forall i | 0 <= i < w
      ensures Bit(m, i) == Bit(Mask(w, len), i)
    {
      MaskBit(w, len, i);
    }
    BitExtensional(m, Mask(w, len), w);
  }

  /** Contiguous words are exactly the masks. */
  lemma ContiguousIsMask(w: nat, m: nat)
    requires m < Pow2(w) && IsContiguous(w, m)
    ensures m == Mask(w, LeadingOnes(m, w))
  {
    var len := LeadingOnes(m, w);
    forall i | 0 <= i < w
      ensures Bit(m, i) <==> w - len <= i
    {
      LeadingOnesBits(m, w, i);
      if i < w - len && i < w - 1 - len {
        assert !Bit(m, w - 1 - len);
      }
    }
    MaskOfBits(w, m, len);
  }

  lemma MaskIsContiguous(w: nat, len: nat)
    requires len <= w
    ensures IsContiguous(w, Mask(w, len))
    ensures LeadingOnes(Mask(w, len), w) == len
  {
    var m := Mask(w, len);
    forall i | 0 <= i < w
      ensures Bit(m, i) <==> w - len <= i
    {
      MaskBit(w, len, i);
    }
    LeadingOnesOfBits(m, w, len);
  }

  /** Different lengths give different masks. */
  lemma MaskInjective(w: nat, a: nat, b: nat)
    requires a <= w && b <= w && Mask(w, a) == Mask(w, b)
    ensures a == b
  {
    MaskIsContiguous(w, a);
    MaskIsContiguous(w, b);
  }

  /**
   * What `mask_to_bits` computes: the length of a contiguous mask, `None` for any other word.
   */
  function MaskLength(w: nat, m: nat): (r: Option<nat>)
    requires m < Pow2(w)
    ensures r.None? <==> !IsContiguous(w, m)
    ensures r.Some? ==> r.value <= w && Mask(w, r.value) == m
  {
    if IsContiguous(w, m) then
      ContiguousIsMask(w, m);
      Some(LeadingOnes(m, w))
    else
      None
  }

  /** `mask_to_bits(get_mask(len)) == Some(len)`, and contiguity is exactly being a mask. */
  lemma MaskRoundTrip(w: nat, len: nat)
    requires len <= w
    ensures MaskLength(w, Mask(w, len)) == Some(len)
  {
    MaskIsContiguous(w, len);
  }

  lemma ContiguousIffMask(w: nat, m: nat)
    requires m < Pow2(w)
    ensures IsContiguous(w, m) <==> exists len :: 0 <= len <= w && m == Mask(w, len)
  {
    if IsContiguous(w, m) {
      ContiguousIsMask(w, m);
    }
    if exists len :: 0 <= len <= w && m == Mask(w, len) {
      var len :| 0 <= len <= w && m == Mask(w, len);
      MaskIsContiguous(w, len);
    }
  }

  /** The all-ones and all-but-the-last-bit words of 32 bits: lengths 32 and 31. */
  lemma MaskLengthTail32()
    ensures MaskLength(32, Pow2(32) - 1) == Some(32)
    ensures MaskLength(32, Pow2(32) - 2) == Some(31)
  {
    assert Mask(32, 32) == Pow2(32) - 1;
    assert Mask(32, 31) == Pow2(32) - 2;
    MaskRoundTrip(32, 32);
    MaskRoundTrip(32, 31);
  }

  lemma MaskStep(w: nat, len: nat)
    requires 1 <= w && len <= w
    ensures Mask(w, if len < w then len + 1 else w) == Pow2(w - 1) + Mask(w, len) / 2
  {
    if len < w {
      assert Pow2(w - len) == 2 * Pow2(w - len - 1);
    }
  }

  lemma OrHighBit(x: nat, w: nat)
    requires 1 <= w && x < Pow2(w - 1)
    ensures Or(Pow2(w - 1), x, w) == Pow2(w - 1) + x
    decreases w
  {
    if w > 1 {
      OrHighBit(x / 2, w - 1);
    }
  }

  lemma ShlOneTop(w: nat)
    requires 1 <= w
    ensures Shl(1, w - 1, w) == Pow2(w - 1)
  {
    DivModUnique(Pow2(w - 1), Pow2(w), 0, Pow2(w - 1));
  }

  /**
   * `get_mask(bits)`: shift a 1 in from the top `bits` times. Any `bits` beyond the width
   * saturates at all ones.
   */
  method GetMask(w: nat, bits: nat) returns (b: nat)
    requires 1 <= w
    ensures b == Mask(w, if bits <= w then bits else w)
  {
    b := 0;
    var k := 0;
    while k < bits
      invariant k <= bits
      invariant b == Mask(w, if k <= w then k else w)
    {
      ShlOneTop(w);
      MaskStep(w, if k <= w then k else w);
      OrHighBit(Shr(b, 1), w);
      b := Or(Shl(1, w - 1, w), Shr(b, 1), w);
      k := k + 1;
    }
  }

  /**
   * `mask_to_bits(mask)`: scan down from the top bit for the first 0, then check that no 1
   * follows it.
   */
  method MaskToBits(w: nat, mask: nat) returns (r: Option<nat>)
    requires 2 <= w && mask < Pow2(w)
    ensures r == MaskLength(w, mask)
  {
    var digit := w - 1;
    while true
      invariant 1 <= digit <= w - 1
      invariant forall i :: digit < i < w ==> Bit(mask, i)
      decreases digit
    {
      BitIsShift(mask, digit);
      if Shr(mask, digit) % 2 == 0 {
        var b := w - 1 - digit;
        var d := digit;
        while d > 0
          invariant d <= digit
          invariant forall j :: d <= j < digit ==> !Bit(mask, j)
        {
          d := d - 1;
          BitIsShift(mask, d);
          if Shr(mask, d) % 2 == 1 {
            assert !IsContiguous(w, mask) by {
              assert !Bit(mask, digit) && Bit(mask, d);
            }
            return None;
          }
        }
        MaskOfBits(w, mask, b);
        MaskIsContiguous(w, b);
        return Some(b);
      }
      if digit == 1 {
        if mask % 2 == 1 {
          MaskOfBits(w, mask, w);
          MaskIsContiguous(w, w);
          return Some(w);
        } else {
          MaskOfBits(w, mask, w - 1);
          MaskIsContiguous(w, w - 1);
          return Some(w - 1);
        }
      }
      digit := digit - 1;
    }
  }

  /** Building the mask of a length and reading its length back gives the length. */
  method MaskToBitsOfGetMask(w: nat, len: nat) returns (r: Option<nat>)
    requires 2 <= w && len <= w
    ensures r == Some(len)
  {
    var m := GetMask(w, len);
    r := MaskToBits(w, m);
    MaskRoundTrip(w, len);
  }
}
