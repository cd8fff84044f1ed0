/**
 Powers of two, masks and capacity rounding: what lets both containers replace
 `index % capacity` by `index & (capacity - 1)`, and what makes the ring
 buffer's ever-growing 64-bit indices safe to wrap.
 */
module Bits {
  import opened Words

  function Pow2(k: nat): (p: nat)
    ensures p >= 1
  {
    if k == 0 then 1 else 2 * Pow2(k - 1)
  }

  /** The number of bits needed to write `n` (C++ `std::bit_width`). */
  function BitWidth(n: nat): nat {
    if n == 0 then 0 else 1 + BitWidth(n / 2)
  }

  /** Bitwise conjunction, bit by bit. */
  function BitAnd(x: nat, y: nat): nat {
    if x == 0 || y == 0 then 0 else 2 * BitAnd(x / 2, y / 2) + (x % 2) * (y % 2)
  }

  function RoundUpToPowerOfTwo(n: nat): nat {
    if n <= 1 then 1 else Pow2(BitWidth(n - 1))
  }

  ghost predicate IsPow2(n: nat) {
    exists k: nat :: n == Pow2(k)
  }

  lemma {:induction false} BitWidthBounds(n: nat)
    requires n >= 1
    ensures BitWidth(n) >= 1
    ensures Pow2(BitWidth(n) - 1) <= n < Pow2(BitWidth(n))
  {
    if n > 1 {
      BitWidthBounds(n / 2);
    } else {
      assert BitWidth(1) == 1 + BitWidth(0);
      assert Pow2(1) == 2 * Pow2(0);
    }
  }

  /** The rounding is the least power of two that is not below the hint. */
  lemma RoundUpIsLeastPowerOfTwo(n: nat)
    ensures IsPow2(RoundUpToPowerOfTwo(n))
    ensures n <= RoundUpToPowerOfTwo(n)
    ensures forall k: nat :: n <= Pow2(k) ==> RoundUpToPowerOfTwo(n) <= Pow2(k)
  {
    if n <= 1 {
      assert 1 == Pow2(0);
    } else {
      var b := BitWidth(n - 1);
      BitWidthBounds(n - 1);
      assert RoundUpToPowerOfTwo(n) == Pow2(b);
      forall k: nat | n <= Pow2(k)
        ensures Pow2(b) <= Pow2(k)
      {
        if k < b {
          Pow2Monotone(k, b - 1);
          assert false;
        }
        Pow2Monotone(b, k);
      }
    }
  }

  lemma RoundUpNotBelow(n: nat)
    ensures n <= RoundUpToPowerOfTwo(n)
  {
    RoundUpIsLeastPowerOfTwo(n);
  }

  lemma {:induction false} Pow2Monotone(j: nat, k: nat)
    requires j <= k
    ensures Pow2(j) <= Pow2(k)
  {
    if j < k {
      Pow2Monotone(j, k - 1);
    }
  }

  /** The lowest bit of a remainder by an even modulus is the lowest bit of the number. */
  lemma ModOfDouble(x: nat, p: nat)
    requires p >= 1
    ensures x % (2 * p) == 2 * ((x / 2) % p) + x % 2
  {
    var h := x / 2;
    var q, r := h / p, h % p;
    assert h == p * q + r;
    assert x == 2 * h + x % 2;
    assert x == (2 * p) * q + (2 * r + x % 2) by {
      assert 2 * (p * q) == (2 * p) * q;
    }
    ModIsUnique(x, 2 * p, q, 2 * r + x % 2);
  }

  /** Masking with a power of two less one is the remainder by that power. */
  lemma {:induction false} MaskIsRemainder(x: nat, k: nat)
    ensures BitAnd(x, Pow2(k) - 1) == x % Pow2(k)
  {
    hide BitAnd;
    if k == 0 {
      MaskNotAbove(x, 0);
    } else {
      MaskIsRemainder(x / 2, k - 1);
      OneMoreBit(x, Pow2(k - 1));
    }
  }

  lemma OneMoreBit(x: nat, p: nat)
    requires p >= 1 && BitAnd(x / 2, p - 1) == (x / 2) % p
    ensures BitAnd(x, 2 * p - 1) == x % (2 * p)
  {
    hide BitAnd;
    assert (2 * p - 1) / 2 == p - 1;
    LowestBit(x, 2 * p - 1);
    ModOfDouble(x, p);
  }

  /** The conjunction with an odd mask, one bit peeled off. */
  lemma LowestBit(x: nat, m: nat)
    requires m % 2 == 1
    ensures BitAnd(x, m) == 2 * BitAnd(x / 2, m / 2) + x % 2
  {
  }

  lemma {:induction false} MaskNotAbove(x: nat, mask: nat)
    ensures BitAnd(x, mask) <= mask
  {
    if x > 0 && mask > 0 {
      MaskNotAbove(x / 2, mask / 2);
    }
  }

  lemma {:induction false} Pow2Split(j: nat, k: nat)
    requires j <= k
    ensures Pow2(k) == Pow2(j) * Pow2(k - j)
  {
    if j > 0 {
      Pow2Split(j - 1, k - 1);
      DoubleFactor(Pow2(j - 1), Pow2(k - j));
    }
  }

  lemma DoubleFactor(a: nat, b: nat)
    ensures (2 * a) * b == 2 * (a * b)
  {
  }

  lemma Pow2Of64()
    ensures Pow2(64) == TWO_TO_64
  {
    assert Pow2(8) == 256;
    Pow2Split(8, 16);
    Pow2Split(16, 32);
    Pow2Split(32, 64);
  }

  /** A remainder by a multiple of `p` has the same remainder by `p`. */
  lemma ModOfMod(x: nat, p: nat, m: nat)
    requires p >= 1 && m >= 1
    ensures (x % (p * m)) % p == x % p
  {
    var q, r := x / (p * m), x % (p * m);
    assert p * m >= 1 by { MulGrows(p, m); }
    assert x == (p * m) * q + r;
    var q2, r2 := r / p, r % p;
    assert r == p * q2 + r2;
    assert x == p * (m * q + q2) + r2 by {
      assert (p * m) * q == p * (m * q);
    }
    ModIsUnique(x, p, m * q + q2, r2);
  }

  /**
   Unbounded operation counts survive being kept in 64 bits: for a power-of-two
   capacity the masked, wrapped index is the true count modulo the capacity.
   */
  lemma MaskOfWrappedIndex(count: nat, k: nat)
    requires k <= 64
    ensures BitAnd(Wrap64(count), Pow2(k) - 1) == count % Pow2(k)
  {
    MaskIsRemainder(Wrap64(count), k);
    Pow2Of64();
    Pow2Split(k, 64);
    ModOfMod(count, Pow2(k), Pow2(64 - k));
  }

  /** The unsigned difference of two wrapped indices is the true occupancy. */
  lemma WrappedDifference(write: nat, read: nat)
    requires read <= write < read + TWO_TO_64
    ensures Wrap64(Wrap64(write) - Wrap64(read)) == write - read
  {
  }
}
