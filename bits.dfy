/**
 * Unsigned machine words of width `n` modelled as natural numbers below `Pow2(n)`,
 * with the bitwise operators of Rust (`&`, `|`, `^`, `!`, `<<`, `>>`) written out
 * bit by bit, and the arithmetic facts that relate them to division and remainder.
 */
module Bits {

  /** 2 to the power `n`. */
  function Pow2(n: nat): (r: nat)
    ensures r >= 1
  {
    if n == 0 then 1 else 2 * Pow2(n - 1)
  }

  lemma {:induction false} Pow2Add(a: nat, b: nat)
    ensures Pow2(a + b) == Pow2(a) * Pow2(b)
    decreases a
  {
    if a > 0 {
      Pow2Add(a - 1, b);
      assert Pow2(a + b) == 2 * Pow2(a - 1 + b);
    }
  }

  /** Squaring a known power of two, stated on values so that no literal power is unfolded. */
  lemma Pow2Double(k: nat, v: nat)
    requires Pow2(k) == v
    ensures Pow2(k + k) == v * v
  {
    Pow2Add(k, k);
  }

  lemma {:induction false} Pow2Mono(a: nat, b: nat)
    requires a <= b
    ensures Pow2(a) <= Pow2(b)
    ensures a < b ==> 2 * Pow2(a) <= Pow2(b)
    decreases b
  {
    if a < b {
      Pow2Mono(a, b - 1);
    }
  }

  /** Euclidean division is unique: the usual way to pin down `a / m` and `a % m`. */
  lemma DivModUnique(a: nat, m: nat, q: nat, r: nat)
    requires m > 0 && r < m && a == m * q + r
    ensures a / m == q && a % m == r
  {
    var q', r' := a / m, a % m;
    assert a == m * q' + r';
    if q' < q {
      assert m * q' + m <= m * q by { MulMonoLeft(m, q' + 1, q); }
    } else if q' > q {
      assert m * q + m <= m * q' by { MulMonoLeft(m, q + 1, q'); }
    }
  }

  lemma DivMod(a: nat, m: nat)
    requires m > 0
    ensures 0 <= a / m && a == (a / m) * m + a % m && a % m < m
  {
    DivBounds(a, m);
  }

  lemma MulSucc(k: nat, d: nat)
    ensures (k + 1) * d == k * d + d
  {
  }

  lemma MulMonoLeft(m: nat, x: nat, y: nat)
    requires x <= y
    ensures m * x <= m * y
  {
  }

  /** The quotient of naturals is a natural no larger than the dividend. */
  lemma DivBounds(a: nat, b: nat)
    requires b >= 1
    ensures 0 <= a / b <= a
  {
    var q, r := a / b, a % b;
    assert a == b * q + r && 0 <= r < b;
    if q > 0 {
      MulMonoLeft(q, 1, b);
    }
  }

  /** Shifting right by one more bit is halving once more. */
  lemma DivPow2Succ(a: nat, k: nat)
    ensures a / Pow2(k + 1) == (a / 2) / Pow2(k)
    ensures a % Pow2(k + 1) == 2 * ((a / 2) % Pow2(k)) + a % 2
  {
    var h := a / 2;
    var m := Pow2(k);
    var q, t := h / m, h % m;
    assert h == m * q + t;
    assert a == 2 * h + a % 2;
    assert 2 * (m * q) == (2 * m) * q;
    assert a == (2 * m) * q + (2 * t + a % 2);
    DivModUnique(a, 2 * m, q, 2 * t + a % 2);
  }

  /** Bit `i` of `a`, counting from the least significant bit: `(a >> i) & 1 == 1`. */
  function Bit(a: nat, i: nat): bool
  {
    if i == 0 then a % 2 == 1 else Bit(a / 2, i - 1)
  }

  lemma {:induction false} BitIsShift(a: nat, i: nat)
    ensures Bit(a, i) <==> (a / Pow2(i)) % 2 == 1
    decreases i
  {
    if i > 0 {
      BitIsShift(a / 2, i - 1);
      DivPow2Succ(a, i - 1);
    }
  }

  /** Two words of width `n` that agree on every bit are equal. */
  lemma {:induction false} BitExtensional(a: nat, b: nat, n: nat)
    requires a < Pow2(n) && b < Pow2(n)
    requires forall i :: 0 <= i < n ==> Bit(a, i) == Bit(b, i)
    ensures a == b
    decreases n
  {
    if n > 0 {
      assert Bit(a, 0) == Bit(b, 0);
      forall i | 0 <= i < n - 1
        ensures Bit(a / 2, i) == Bit(b / 2, i)
      {
        assert Bit(a, i + 1) == Bit(b, i + 1);
      }
      BitExtensional(a / 2, b / 2, n - 1);
    }
  }

  /** A word below `Pow2(n)` has no bit set at position `n` or above. */
  lemma {:induction false} BitAboveWidth(a: nat, n: nat, i: nat)
    requires a < Pow2(n) && n <= i
    ensures !Bit(a, i)
    decreases i
  {
    if i > 0 {
      if n > 0 {
        BitAboveWidth(a / 2, n - 1, i - 1);
      } else {
        BitAboveWidth(a / 2, 0, i - 1);
      }
    }
  }

  /** The word with ones from bit `k` up to bit `n - 1` and zeros below. */
  function HighOnes(n: nat, k: nat): (r: nat)
    requires k <= n
    ensures r + Pow2(k) == Pow2(n)
  {
    Pow2Mono(k, n);
    Pow2(n) - Pow2(k)
  }

  /** The bits of `HighOnes(n, k)`: ones from position `k` up to `n - 1`, zeros below. */
  lemma {:induction false} HighOnesBit(n: nat, k: nat, i: nat)
    requires k <= n && i < n
    ensures Bit(HighOnes(n, k), i) <==> k <= i
    decreases n
  {
    var m := HighOnes(n, k);
    if k > 0 {
      assert m == 2 * HighOnes(n - 1, k - 1);
      if i > 0 {
        HighOnesBit(n - 1, k - 1, i - 1);
      }
    } else {
      assert m == 2 * HighOnes(n - 1, 0) + 1;
      if i > 0 {
        HighOnesBit(n - 1, 0, i - 1);
      }
    }
  }

  //
  // Bitwise operators on `n`-bit words.
  //

  /** `a & b` on `n`-bit words. */
  function And(a: nat, b: nat, n: nat): (r: nat)
    ensures r < Pow2(n)
    decreases n
  {
    if n == 0 then 0
    else 2 * And(a / 2, b / 2, n - 1) + (if a % 2 == 1 && b % 2 == 1 then 1 else 0)
  }

  /** `a | b` on `n`-bit words. */
  function Or(a: nat, b: nat, n: nat): (r: nat)
    ensures r < Pow2(n)
    decreases n
  {
    if n == 0 then 0
    else 2 * Or(a / 2, b / 2, n - 1) + (if a % 2 == 1 || b % 2 == 1 then 1 else 0)
  }

  /** `a ^ b` on `n`-bit words. */
  function Xor(a: nat, b: nat, n: nat): (r: nat)
    ensures r < Pow2(n)
    decreases n
  {
    if n == 0 then 0
    else 2 * Xor(a / 2, b / 2, n - 1) + (if a % 2 != b % 2 then 1 else 0)
  }

  /** `!a` on an `n`-bit word. */
  function Not(a: nat, n: nat): (r: nat)
    requires a < Pow2(n)
    ensures r < Pow2(n) && a + r == Pow2(n) - 1
  {
    Pow2(n) - 1 - a
  }

  /** `a >> k`. */
  function Shr(a: nat, k: nat): (r: nat)
    ensures r <= a
  {
    DivBounds(a, Pow2(k));
    a / Pow2(k)
  }

  /** `a << k` on an `n`-bit word; Rust refuses a shift by the width or more. */
  function Shl(a: nat, k: nat, n: nat): (r: nat)
    requires k < n
    ensures r < Pow2(n)
  {
    (a * Pow2(k)) % Pow2(n)
  }

  lemma {:induction false} AndBit(a: nat, b: nat, n: nat, i: nat)
    requires i < n
    ensures Bit(And(a, b, n), i) <==> Bit(a, i) && Bit(b, i)
    decreases n
  {
    if i > 0 {
      AndBit(a / 2, b / 2, n - 1, i - 1);
    }
  }

  lemma {:induction false} AndComm(a: nat, b: nat, n: nat)
    ensures And(a, b, n) == And(b, a, n)
    decreases n
  {
    if n > 0 {
      AndComm(a / 2, b / 2, n - 1);
    }
  }

  /** `a & b` is `a` when `b` keeps every bit of `a`. */
  lemma {:induction false} AndIdem(a: nat, n: nat)
    requires a < Pow2(n)
    ensures And(a, a, n) == a
    decreases n
  {
    if n > 0 {
      AndIdem(a / 2, n - 1);
    }
  }

  /**
   * Masking with the high-ones word clears the low `k` bits:
   * `a & mask == a - a % 2^k`.
   */
  lemma {:induction false} AndHighOnes(a: nat, n: nat, k: nat)
    requires a < Pow2(n) && k <= n
    ensures And(a, HighOnes(n, k), n) == a - a % Pow2(k)
    decreases n
  {
    if n > 0 {
      var m := HighOnes(n, k);
      if k > 0 {
        assert m % 2 == 0 && m / 2 == HighOnes(n - 1, k - 1) by {
          assert m == 2 * HighOnes(n - 1, k - 1);
        }
        AndHighOnes(a / 2, n - 1, k - 1);
        DivPow2Succ(a, k - 1);
      } else {
        assert m % 2 == 1 && m / 2 == HighOnes(n - 1, 0) by {
          assert m == 2 * HighOnes(n - 1, 0) + 1;
        }
        AndHighOnes(a / 2, n - 1, 0);
      }
    }
  }

  /**
   * Or-ing the low-ones word `Pow2(k) - 1` into a word whose low `k` bits are clear
   * fills them: `(2^k - 1) | p == p + 2^k - 1`.
   */
  lemma {:induction false} OrLowOnes(p: nat, n: nat, k: nat)
    requires p < Pow2(n) && k <= n && p % Pow2(k) == 0
    ensures Or(Pow2(k) - 1, p, n) == p + Pow2(k) - 1
    decreases n
  {
    if n > 0 {
      if k > 0 {
        DivPow2Succ(p, k - 1);
        assert (Pow2(k) - 1) / 2 == Pow2(k - 1) - 1 && (Pow2(k) - 1) % 2 == 1;
        OrLowOnes(p / 2, n - 1, k - 1);
      } else {
        OrLowOnes(p / 2, n - 1, 0);
      }
    }
  }

  /** `a ^ b == 0` exactly when the words are equal. */
  lemma {:induction false} XorZero(a: nat, b: nat, n: nat)
    requires a < Pow2(n) && b < Pow2(n)
    ensures Xor(a, b, n) == 0 <==> a == b
    decreases n
  {
    if n > 0 {
      XorZero(a / 2, b / 2, n - 1);
    }
  }

  lemma {:induction false} XorComm(a: nat, b: nat, n: nat)
    ensures Xor(a, b, n) == Xor(b, a, n)
    decreases n
  {
    if n > 0 {
      XorComm(a / 2, b / 2, n - 1);
    }
  }

  /**
   * Two words whose low `k` bits are clear differ in exactly bit `k` when the lower one
   * has bit `k` clear and the other is that word plus `2^k`.
   */
  lemma {:induction false} XorSingleBit(p: nat, q: nat, n: nat, k: nat)
    requires p < Pow2(n) && q < Pow2(n) && k < n
    requires p % Pow2(k) == 0 && q % Pow2(k) == 0
    ensures Xor(p, q, n) == Pow2(k) <==>
      (q == p + Pow2(k) && p % Pow2(k + 1) == 0) || (p == q + Pow2(k) && q % Pow2(k + 1) == 0)
    decreases k
  {
    if k > 0 {
      DivPow2Succ(p, k - 1);
      DivPow2Succ(q, k - 1);
      DivPow2Succ(p, k);
      DivPow2Succ(q, k);
      XorSingleBit(p / 2, q / 2, n - 1, k - 1);
    } else {
      XorZero(p / 2, q / 2, n - 1);
      DivPow2Succ(p, 0);
      DivPow2Succ(q, 0);
    }
  }

  lemma {:induction false} XorBit(a: nat, b: nat, n: nat, i: nat)
    requires i < n
    ensures Bit(Xor(a, b, n), i) <==> Bit(a, i) != Bit(b, i)
    decreases n
  {
    if i > 0 {
      XorBit(a / 2, b / 2, n - 1, i - 1);
    }
  }

  /** `1 << k` has bit `k` set and no other. */
  lemma {:induction false} Pow2Bit(k: nat, i: nat)
    ensures Bit(Pow2(k), i) <==> i == k
    decreases k
  {
    if k > 0 && i > 0 {
      Pow2Bit(k - 1, i - 1);
    } else if k > 0 {
      assert Pow2(k) == 2 * Pow2(k - 1);
    } else if i > 0 {
      BitAboveWidth(0, 0, i - 1);
    }
  }

  /** The bits of `q * 2^k + r` with `r < 2^k`: those of `r` below `k`, those of `q` above. */
  lemma {:induction false} BitSplit(q: nat, r: nat, k: nat, i: nat)
    requires r < Pow2(k)
    ensures Bit(q * Pow2(k) + r, i) == if i < k then Bit(r, i) else Bit(q, i - k)
    decreases k
  {
    if k > 0 {
      var x := q * Pow2(k) + r;
      var h := q * Pow2(k - 1);
      assert q * Pow2(k) == 2 * h;
      DivModUnique(x, 2, h + r / 2, r % 2);
      DivModUnique(r, 2, r / 2, r % 2);
      if i > 0 {
        BitSplit(q, r / 2, k - 1, i - 1);
      }
    }
  }
}
