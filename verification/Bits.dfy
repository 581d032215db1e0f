/** Bitwise operations of Rust's unsigned words, on natural numbers, one bit at a time. */
module Bits {

  import opened Words

  /** `1 << n` in a word wide enough. */
  function Pow2(n: nat): (p: nat)
    ensures p > 0
  {
    if n == 0 then 1 else 2 * Pow2(n - 1)
  }

  /** Bit `k` of `x`, counted from the least significant. */
  predicate Bit(x: nat, k: nat) {
    if k == 0 then x % 2 == 1 else Bit(x / 2, k - 1)
  }

  function And(x: nat, y: nat): nat {
    if x == 0 || y == 0 then 0 else (x % 2) * (y % 2) + 2 * And(x / 2, y / 2)
  }

  function Or(x: nat, y: nat): nat
    decreases x + y
  {
    if x == 0 then y else if y == 0 then x
    else (if x % 2 + y % 2 > 0 then 1 else 0) + 2 * Or(x / 2, y / 2)
  }

  function Xor(x: nat, y: nat): nat
    decreases x + y
  {
    if x == 0 then y else if y == 0 then x else (x % 2 + y % 2) % 2 + 2 * Xor(x / 2, y / 2)
  }

  function TrailingZeros(x: nat): nat
    requires x > 0
  {
    if x % 2 == 1 then 0 else 1 + TrailingZeros(x / 2)
  }

  lemma {:induction false} ZeroHasNoBits(k: nat)
    ensures !Bit(0, k)
  {
    if k > 0 { ZeroHasNoBits(k - 1); }
  }

  lemma {:induction false} AndBit(x: nat, y: nat, k: nat)
    ensures Bit(And(x, y), k) <==> Bit(x, k) && Bit(y, k)
  {
    if x == 0 || y == 0 {
      ZeroHasNoBits(k);
    } else if k > 0 {
      AndBit(x / 2, y / 2, k - 1);
    }
  }

  lemma {:induction false} OrBit(x: nat, y: nat, k: nat)
    ensures Bit(Or(x, y), k) <==> Bit(x, k) || Bit(y, k)
    decreases k
  {
    if x == 0 || y == 0 {
      ZeroHasNoBits(k);
    } else if k > 0 {
      OrBit(x / 2, y / 2, k - 1);
    }
  }

  lemma {:induction false} PowerBit(n: nat, k: nat)
    ensures Bit(Pow2(n), k) <==> k == n
  {
    if n > 0 {
      if k > 0 { PowerBit(n - 1, k - 1); }
    } else if k > 0 {
      ZeroHasNoBits(k - 1);
    }
  }

  /** `(1 << n) - 1` has exactly the `n` lowest bits. */
  lemma {:induction false} LowOnesBit(n: nat, k: nat)
    ensures Bit(Pow2(n) - 1, k) <==> k < n
  {
    if n == 0 {
      ZeroHasNoBits(k);
    } else {
      assert Pow2(n) - 1 == 2 * (Pow2(n - 1) - 1) + 1;
      if k > 0 { LowOnesBit(n - 1, k - 1); }
    }
  }

  /** `x << n`, when no bit is shifted out. */
  function ShiftLeft(x: nat, n: nat): nat {
    if n == 0 then x else 2 * ShiftLeft(x, n - 1)
  }

  /** `x >> n`. */
  function ShiftRight(x: nat, n: nat): (r: nat)
    ensures r <= x
  {
    if n == 0 then x else ShiftRight(x / 2, n - 1)
  }

  /** Shifting left moves every bit up. */
  lemma {:induction false} ShiftBit(x: nat, n: nat, k: nat)
    ensures Bit(ShiftLeft(x, n), k) <==> k >= n && Bit(x, k - n)
  {
    if n > 0 && k > 0 { ShiftBit(x, n - 1, k - 1); }
  }

  /** `!x` in 64 bits. */
  function Not(x: u64): u64 {
    MAX_U64 - x
  }

  lemma {:induction false} ComplementBit(x: nat, n: nat, k: nat)
    requires x < Pow2(n) && k < n
    ensures Bit(Pow2(n) - 1 - x, k) <==> !Bit(x, k)
  {
    HalfComplement(Pow2(n - 1), x);
    if k > 0 { ComplementBit(x / 2, n - 1, k - 1); }
  }

  lemma HalfComplement(p: nat, x: nat)
    requires x < 2 * p
    ensures (2 * p - 1 - x) / 2 == p - 1 - x / 2 && (2 * p - 1 - x) % 2 == 1 - x % 2
  {
  }

  lemma Pow2Of64()
    ensures Pow2(64) == MAX_U64 + 1
  {
    assert Pow2(8) == 0x100;
    assert Pow2(16) == 0x1_0000;
    assert Pow2(24) == 0x100_0000;
    assert Pow2(32) == 0x1_0000_0000;
    assert Pow2(40) == 0x100_0000_0000;
    assert Pow2(48) == 0x1_0000_0000_0000;
    assert Pow2(56) == 0x100_0000_0000_0000;
  }

  lemma NotBit(x: u64, k: nat)
    requires k < 64
    ensures Bit(Not(x), k) <==> !Bit(x, k)
  {
    Pow2Of64();
    ComplementBit(x, 64, k);
  }

  /** The bit that trailing zeros end at is the lowest bit set. */
  lemma {:induction false} TrailingZerosIsLowestBit(x: nat, n: nat)
    requires 0 < x < Pow2(n)
    ensures TrailingZeros(x) < n && Bit(x, TrailingZeros(x))
    ensures forall k: nat :: k < TrailingZeros(x) ==> !Bit(x, k)
  {
    if x % 2 == 0 {
      TrailingZerosIsLowestBit(x / 2, n - 1);
    }
  }

  /** A word is determined by its bits: no bit, no value. */
  lemma {:induction false} NoBitsIsZero(x: nat, n: nat)
    requires x < Pow2(n) && forall k: nat :: k < n ==> !Bit(x, k)
    ensures x == 0
  {
    if n > 0 {
      assert !Bit(x, 0);
      forall k: nat | k < n - 1
        ensures !Bit(x / 2, k)
      {
        assert !Bit(x, k + 1);
      }
      NoBitsIsZero(x / 2, n - 1);
    }
  }

  lemma {:induction false} AndBound(x: nat, y: nat)
    ensures And(x, y) <= x
  {
    if x != 0 && y != 0 { AndBound(x / 2, y / 2); }
  }

  lemma {:induction false} OrBound(x: nat, y: nat, n: nat)
    requires x < Pow2(n) && y < Pow2(n)
    ensures Or(x, y) < Pow2(n)
  {
    if x != 0 && y != 0 { OrBound(x / 2, y / 2, n - 1); }
  }

  lemma {:induction false} PowerMonotone(m: nat, n: nat)
    requires m < n
    ensures 2 * Pow2(m) <= Pow2(n)
  {
    if m + 1 < n { PowerMonotone(m, n - 1); }
  }

  // ----- 64-bit words --------------------------------------------------------------------

  /** `w | (1 << bit)`. */
  function SetBit(w: u64, bit: nat): u64
    requires bit < 64
  {
    Pow2Of64();
    PowerMonotone(bit, 64);
    OrBound(w, Pow2(bit), 64);
    Or(w, Pow2(bit))
  }

  /** `w & !(1 << bit)`. */
  function ClearBit(w: u64, bit: nat): u64
    requires bit < 64
  {
    Pow2Of64();
    PowerMonotone(bit, 64);
    AndBound(w, Not(Pow2(bit)));
    And(w, Not(Pow2(bit)))
  }

  lemma SetBitBits(w: u64, bit: nat, k: nat)
    requires bit < 64
    ensures Bit(SetBit(w, bit), k) <==> k == bit || Bit(w, k)
  {
    OrBit(w, Pow2(bit), k);
    PowerBit(bit, k);
  }

  lemma ClearBitBits(w: u64, bit: nat, k: nat)
    requires bit < 64 && k < 64
    ensures Bit(ClearBit(w, bit), k) <==> k != bit && Bit(w, k)
  {
    Pow2Of64();
    PowerMonotone(bit, 64);
    AndBit(w, Not(Pow2(bit)), k);
    NotBit(Pow2(bit), k);
    PowerBit(bit, k);
  }

  /** The mask `first_used_in` builds for `n` bits from `bit` on. */
  function RangeMask(bit: nat, n: nat): nat {
    if n >= 64 then MAX_U64 else ShiftLeft(Pow2(n) - 1, bit)
  }

  lemma RangeMaskBits(bit: nat, n: nat, k: nat)
    requires bit + n <= 64 && k < 64
    ensures Bit(RangeMask(bit, n), k) <==> bit <= k < bit + n
  {
    if n >= 64 {
      Pow2Of64();
      LowOnesBit(64, k);
    } else {
      ShiftBit(Pow2(n) - 1, bit, k);
      if k >= bit { LowOnesBit(n, k - bit); }
    }
  }

  lemma MaxHasAllBits(k: nat)
    requires k < 64
    ensures Bit(MAX_U64, k)
  {
    Pow2Of64();
    LowOnesBit(64, k);
  }

  /** `(!w).trailing_zeros()` of a word that is not full is its lowest clear bit. */
  lemma LowestClearBit(w: u64)
    requires w != MAX_U64
    ensures TrailingZeros(Not(w)) < 64 && !Bit(w, TrailingZeros(Not(w)))
    ensures forall k: nat :: k < TrailingZeros(Not(w)) ==> Bit(w, k)
  {
    Pow2Of64();
    TrailingZerosIsLowestBit(Not(w), 64);
    forall k: nat | k < 64
      ensures Bit(Not(w), k) <==> !Bit(w, k)
    {
      NotBit(w, k);
    }
  }

  /** `(w & mask).trailing_zeros()` is the lowest bit of `w` in the masked range. */
  lemma LowestBitInRange(w: u64, bit: nat, n: nat)
    requires bit + n <= 64
    ensures var masked := And(w, RangeMask(bit, n));
            if masked == 0 then forall k: nat :: bit <= k < bit + n ==> !Bit(w, k)
            else
              && bit <= TrailingZeros(masked) < bit + n && Bit(w, TrailingZeros(masked))
              && forall k: nat :: bit <= k < TrailingZeros(masked) ==> !Bit(w, k)
  {
    var mask := RangeMask(bit, n);
    var masked := And(w, mask);
    forall k: nat | k < 64
      ensures Bit(masked, k) <==> Bit(w, k) && bit <= k < bit + n
    {
      AndBit(w, mask, k);
      RangeMaskBits(bit, n, k);
    }
    if masked == 0 {
      forall k: nat | bit <= k < bit + n
        ensures !Bit(w, k)
      {
        ZeroHasNoBits(k);
      }
    } else {
      Pow2Of64();
      AndBound(w, mask);
      TrailingZerosIsLowestBit(masked, 64);
    }
  }
}
