/** Network masks: the contiguity test, the prefix length, and masking as rounding down. */
module IpMask {
  import opened Bits

  /** `IpNetwork._mask_int`: the mask of a given prefix length in a bits-wide family. */
  function MaskInt(bits: nat, prefixlen: nat): (m: nat)
    requires prefixlen <= bits
  {
    if prefixlen == 0 then 0 else ShiftLeft(Pow2(prefixlen) - 1, bits - prefixlen)
  }

  /** `IpMask._is_contiguous_mask` */
  predicate IsContiguousMask(value: nat, bits: nat) {
    var inverted := And(Not(value), Pow2(bits) - 1);
    And(inverted, inverted + 1) == 0
  }

  /** `IpMask.__len__` */
  function PrefixLength(mask: nat): nat {
    PopCount(mask)
  }

  lemma MaskIntValue(bits: nat, prefixlen: nat)
    requires prefixlen <= bits
    ensures MaskInt(bits, prefixlen) == Pow2(bits) - Pow2(bits - prefixlen)
  {
    if prefixlen > 0 {
      ShiftLeftNext(Pow2(prefixlen) - 1, bits - prefixlen);
      ShiftLeftPow2(prefixlen, bits - prefixlen);
    }
  }

  // ----- the contiguity test

  lemma {:induction false} AndSelf(x: nat)
    ensures And(x, x) == x
  {
    if x == 0 {
    } else {
      AndSelf(x / 2);
    }
  }

  /** `x & (x + 1) == 0` holds of the numbers one below a power of two, and of no others. */
  lemma {:induction false} AndSuccessor(x: nat) returns (j: nat)
    ensures And(x, x + 1) == 0 ==> x + 1 == Pow2(j)
  {
    if x == 0 {
      j := 0;
    } else if x % 2 == 0 {
      j := 0;
      assert (x + 1) / 2 == x / 2;
      AndSelf(x / 2);
    } else {
      assert (x + 1) / 2 == x / 2 + 1 && (x + 1) % 2 == 0;
      var i := AndSuccessor(x / 2);
      j := i + 1;
    }
  }

  lemma {:induction false} AndSuccessorOfPow2(j: nat)
    ensures And(Pow2(j) - 1, Pow2(j)) == 0
  {
    if j == 0 {
    } else {
      AndSuccessorOfPow2(j - 1);
      assert (Pow2(j) - 1) / 2 == Pow2(j - 1) - 1 && Pow2(j) / 2 == Pow2(j - 1) && Pow2(j) % 2 == 0;
    }
  }

  lemma InvertedValue(value: nat, bits: nat)
    requires value < Pow2(bits)
    ensures And(Not(value), Pow2(bits) - 1) == Pow2(bits) - 1 - value
  {
    AndLowMask(Not(value), bits);
    DivModUnique(Not(value), Pow2(bits), -1, Pow2(bits) - 1 - value);
  }

  lemma MaskIsContiguous(bits: nat, prefixlen: nat)
    requires prefixlen <= bits
    ensures IsContiguousMask(MaskInt(bits, prefixlen), bits)
  {
    MaskIntValue(bits, prefixlen);
    InvertedValue(MaskInt(bits, prefixlen), bits);
    AndSuccessorOfPow2(bits - prefixlen);
  }

  lemma ContiguousIsMask(value: nat, bits: nat) returns (prefixlen: nat)
    requires value < Pow2(bits) && IsContiguousMask(value, bits)
    ensures prefixlen <= bits && value == MaskInt(bits, prefixlen)
  {
    InvertedValue(value, bits);
    var j := AndSuccessor(Pow2(bits) - 1 - value);
    Pow2Order(j, bits);
    prefixlen := bits - j;
    MaskIntValue(bits, prefixlen);
  }

  /** A mask passes the test exactly when it is the mask of some prefix length. */
  lemma ContiguousIffMask(value: nat, bits: nat)
    requires value < Pow2(bits)
    ensures IsContiguousMask(value, bits) <==> exists k: nat :: k <= bits && value == MaskInt(bits, k)
  {
    if IsContiguousMask(value, bits) {
      var k := ContiguousIsMask(value, bits);
    }
    if k: nat :| k <= bits && value == MaskInt(bits, k) {
      MaskIsContiguous(bits, k);
    }
  }

  // ----- the population count is the prefix length

  lemma {:induction false} PopCountShift(x: nat, n: nat)
    ensures PopCount(ShiftLeft(x, n)) == PopCount(x)
  {
    if n == 0 {
    } else {
      PopCountShift(x, n - 1);
    }
  }

  lemma {:induction false} PopCountOnes(k: nat)
    ensures PopCount(Pow2(k) - 1) == k
  {
    if k == 0 {
    } else {
      PopCountOnes(k - 1);
      assert (Pow2(k) - 1) / 2 == Pow2(k - 1) - 1;
    }
  }

  lemma MaskPrefixLength(bits: nat, prefixlen: nat)
    requires prefixlen <= bits
    ensures PrefixLength(MaskInt(bits, prefixlen)) == prefixlen
  {
    if prefixlen > 0 {
      PopCountShift(Pow2(prefixlen) - 1, bits - prefixlen);
      PopCountOnes(prefixlen);
    }
  }

  // ----- masking rounds an address down to its block

  lemma {:induction false} AndUpperBits(a: nat, bits: nat, n: nat)
    requires n <= bits && a < Pow2(bits)
    ensures And(a, Pow2(bits) - Pow2(n)) == a - Low(a, n)
    decreases n
  {
    if n == 0 {
      AndAllBits(a, bits);
    } else if n == bits {
      LowIsWhole(a, bits);
    } else {
      Pow2Monotone(n, bits);
      AndUpperBits(a / 2, bits - 1, n - 1);
      AndDoubled(a, Pow2(bits) - Pow2(n), Pow2(bits - 1) - Pow2(n - 1), Low(a / 2, n - 1));
      assert Low(a, n) == 2 * Low(a / 2, n - 1) + a % 2;
    }
  }

  lemma AndAllBits(a: nat, bits: nat)
    requires a < Pow2(bits)
    ensures And(a, Pow2(bits) - 1) == a
  {
    AndLowBits(a, bits);
    LowIsWhole(a, bits);
  }

  lemma AndDoubled(a: nat, x: nat, h: nat, low: nat)
    requires h > 0 && x == 2 * h && And(a / 2, h) == a / 2 - low
    ensures And(a, x) == a - (2 * low + a % 2)
  {
    AndEven(a, h);
  }

  lemma {:induction false} LowIsWhole(a: nat, bits: nat)
    requires a < Pow2(bits)
    ensures Low(a, bits) == a
  {
    if bits == 0 {
    } else {
      LowIsWhole(a / 2, bits - 1);
    }
  }

  lemma AndEven(a: nat, h: nat)
    requires h > 0
    ensures And(a, 2 * h) == 2 * And(a / 2, h)
  {
    assert (2 * h) / 2 == h && (2 * h) % 2 == 0;
  }

  /** `address & mask` */
  lemma AndMask(a: nat, bits: nat, prefixlen: nat)
    requires prefixlen <= bits && a < Pow2(bits)
    ensures And(a, MaskInt(bits, prefixlen)) == a - a % Pow2(bits - prefixlen)
  {
    MaskIntValue(bits, prefixlen);
    AndUpper(a, bits, bits - prefixlen, MaskInt(bits, prefixlen));
  }

  lemma AndUpper(a: nat, bits: nat, n: nat, mask: nat)
    requires n <= bits && a < Pow2(bits) && mask == Pow2(bits) - Pow2(n)
    ensures And(a, mask) == a - a % Pow2(n)
  {
    AndUpperBits(a, bits, n);
    LowIsMod(a, n);
  }

  /** `~mask & (2**bits - 1)`: the host part of the address space. */
  lemma HostMaskValue(bits: nat, prefixlen: nat)
    requires prefixlen <= bits
    ensures And(Not(MaskInt(bits, prefixlen)), Pow2(bits) - 1) == Pow2(bits - prefixlen) - 1
  {
    MaskIntValue(bits, prefixlen);
    InvertedValue(MaskInt(bits, prefixlen), bits);
  }
}
