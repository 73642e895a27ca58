/** Binary numbers on unbounded naturals: powers of two, bit `j` of a number,
    setting one bit, and the number a sequence of bits spells (bit 0 first).
    Every definition halves or doubles, so the proofs stay linear. */
module Bits {

  function Pow2(n: nat): (p: nat)
    ensures 1 <= p
  {
    if n == 0 then 1 else 2 * Pow2(n - 1)
  }

  lemma {:induction false} Pow2Add(a: nat, b: nat)
    ensures Pow2(a + b) == Pow2(a) * Pow2(b)
    decreases a
  {
    if 0 < a {
      Pow2Add(a - 1, b);
      assert Pow2(a + b) == 2 * Pow2(a - 1 + b);
    }
  }

  /** Bit `j` of `n`: `(n >> j) & 1 == 1`. */
  function Bit(n: nat, j: nat): bool
    decreases j
  {
    if j == 0 then n % 2 == 1 else Bit(n / 2, j - 1)
  }

  /** `n` with bit `j` set to `b`. */
  function SetBit(n: nat, j: nat, b: bool): (r: nat)
    ensures Bit(r, j) == b
    ensures forall k: nat :: k != j ==> Bit(r, k) == Bit(n, k)
    decreases j
  {
    if j == 0 then
      var r := n / 2 * 2 + (if b then 1 else 0);
      assert r / 2 == n / 2;
      r
    else
      var high := SetBit(n / 2, j - 1, b);
      var r := n % 2 + 2 * high;
      assert r / 2 == high && r % 2 == n % 2;
      forall k: nat | k != j ensures Bit(r, k) == Bit(n, k) {
        if k > 0 {
          assert Bit(r, k) == Bit(high, k - 1);
        }
      }
      r
  }

  /** Two numbers with the same bits are the same number. */
  lemma {:induction false} BitsEqual(a: nat, b: nat)
    requires forall k: nat :: Bit(a, k) == Bit(b, k)
    ensures a == b
    decreases a + b
  {
    if a != 0 || b != 0 {
      assert Bit(a, 0) == Bit(b, 0);
      forall k: nat ensures Bit(a / 2, k) == Bit(b / 2, k) {
        assert Bit(a, k + 1) == Bit(b, k + 1);
      }
      BitsEqual(a / 2, b / 2);
    }
  }

  /** A number below 2^k has no bit at or above k. */
  lemma {:induction false} BitAbove(n: nat, k: nat, j: nat)
    requires n < Pow2(k) && k <= j
    ensures !Bit(n, j)
    decreases j
  {
    if j == 0 {
      assert n == 0;
    } else if k == 0 {
      assert n == 0;
      ZeroBits(j);
    } else {
      BitAbove(n / 2, k - 1, j - 1);
    }
  }

  lemma {:induction false} ZeroBits(j: nat)
    ensures !Bit(0, j)
    decreases j
  {
    if 0 < j {
      ZeroBits(j - 1);
    }
  }

  /** Two different numbers below 2^k differ in one of their k low bits. */
  lemma LowBitsDiffer(a: nat, b: nat, k: nat) returns (j: nat)
    requires a < Pow2(k) && b < Pow2(k) && a != b
    ensures j < k && Bit(a, j) != Bit(b, j)
  {
    if forall i :: 0 <= i < k ==> Bit(a, i) == Bit(b, i) {
      forall i: nat ensures Bit(a, i) == Bit(b, i) {
        if k <= i {
          BitAbove(a, k, i);
          BitAbove(b, k, i);
        }
      }
      BitsEqual(a, b);
    }
    j :| 0 <= j < k && Bit(a, j) != Bit(b, j);
  }

  /** The number whose low bits are `bits`, bit 0 first. */
  function FromBits(bits: seq<bool>): (n: nat)
    ensures n < Pow2(|bits|)
    ensures forall j :: 0 <= j < |bits| ==> Bit(n, j) == bits[j]
  {
    if |bits| == 0 then 0
    else
      var high := FromBits(bits[1..]);
      var n := (if bits[0] then 1 else 0) + 2 * high;
      assert n / 2 == high;
      forall j | 0 < j < |bits| ensures Bit(n, j) == bits[j] {
        assert bits[j] == bits[1..][j - 1];
      }
      n
  }
}
