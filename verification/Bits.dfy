/** Arbitrary-precision integer bit operations, with the meaning Python gives them:
    every integer, negative ones included, is an infinite two's-complement bit string. */
module Bits {

  function Pow2(n: nat): (r: nat)
    ensures r >= 1
  {
    if n == 0 then 1 else 2 * Pow2(n - 1)
  }

  /** `x << n` */
  function ShiftLeft(x: nat, n: nat): nat {
    if n == 0 then x else 2 * ShiftLeft(x, n - 1)
  }

  /** `~x` */
  function Not(x: int): int {
    -x - 1
  }

  /** `-x` */
  function Neg(x: int): int {
    -x
  }

  function Abs(x: int): nat {
    if x < 0 then -x else x
  }

  /** `x & y`. Dafny's division and modulus by 2 are the arithmetic shift and the low bit. */
  function And(x: int, y: int): int
    decreases Abs(x)
  {
    if x == 0 || y == 0 then 0
    else if x == -1 then y
    else if y == -1 then x
    else 2 * And(x / 2, y / 2) + if x % 2 == 1 && y % 2 == 1 then 1 else 0
  }

  /** `x | y`: the bits of both, those they share counted once. */
  function Or(x: int, y: int): int {
    x + y - And(x, y)
  }

  /** `n.bit_length()` */
  function BitLength(n: nat): nat {
    if n == 0 then 0 else 1 + BitLength(n / 2)
  }

  /** `bin(n).count("1")` */
  function PopCount(n: nat): nat {
    if n == 0 then 0 else n % 2 + PopCount(n / 2)
  }

  // ----- powers of two

  lemma {:induction false} Pow2Add(m: nat, n: nat)
    ensures Pow2(m + n) == Pow2(m) * Pow2(n)
  {
    if m == 0 {
    } else {
      Pow2Add(m - 1, n);
      assert Pow2(m + n) == 2 * Pow2(m - 1 + n);
    }
  }

  lemma {:induction false} ShiftLeftValue(x: nat, n: nat)
    ensures ShiftLeft(x, n) == x * Pow2(n)
  {
    if n == 0 {
    } else {
      ShiftLeftValue(x, n - 1);
      assert x * (2 * Pow2(n - 1)) == 2 * (x * Pow2(n - 1));
    }
  }

  lemma {:induction false} ShiftLeftNext(i: nat, n: nat)
    ensures ShiftLeft(i + 1, n) == ShiftLeft(i, n) + Pow2(n)
  {
    if n == 0 {
    } else {
      ShiftLeftNext(i, n - 1);
    }
  }

  lemma {:induction false} ShiftLeftPow2(m: nat, n: nat)
    ensures ShiftLeft(Pow2(m), n) == Pow2(m + n)
  {
    if n == 0 {
    } else {
      ShiftLeftPow2(m, n - 1);
    }
  }

  lemma {:induction false} ShiftLeftMonotone(i: nat, j: nat, n: nat)
    ensures i <= j <==> ShiftLeft(i, n) <= ShiftLeft(j, n)
  {
    if n == 0 {
    } else {
      ShiftLeftMonotone(i, j, n - 1);
    }
  }

  lemma {:induction false} Pow2Monotone(m: nat, n: nat)
    requires m <= n
    ensures Pow2(m) <= Pow2(n)
    ensures m < n ==> 2 * Pow2(m) <= Pow2(n)
    decreases n
  {
    if m == n {
    } else {
      Pow2Monotone(m, n - 1);
    }
  }

  /** Distinct exponents give distinct powers, so a power determines its exponent. */
  lemma Pow2Order(m: nat, n: nat)
    requires Pow2(m) <= Pow2(n)
    ensures m <= n
  {
    if n < m {
      Pow2Monotone(n, m);
    }
  }

  lemma Pow2_16()
    ensures Pow2(16) == 0x1_0000
  {
    assert Pow2(8) == 0x100;
    Pow2Add(8, 8);
  }

  lemma Pow2_32()
    ensures Pow2(32) == 0x1_0000_0000
  {
    Pow2_16();
    Pow2Add(16, 16);
  }

  lemma Pow2_64()
    ensures Pow2(64) == 0x1_0000_0000_0000_0000
  {
    Pow2_32();
    Pow2Add(32, 32);
  }

  // ----- division facts

  /** A quotient and a remainder in range are the quotient and the remainder. */
  lemma DivModUnique(x: int, d: int, q: int, r: int)
    requires d > 0 && 0 <= r < d && x == q * d + r
    ensures x / d == q && x % d == r
  {
    var e := x / d - q;
    assert e * d == r - x % d;
    assert (e >= 1 ==> e * d >= d) && (e <= -1 ==> e * d <= (0 - d));
  }

  /** a - a % s is the multiple of s at or below a. */
  lemma RoundDown(a: int, s: int)
    requires s > 0
    ensures (a - a % s) % s == 0 && a - a % s <= a < a - a % s + s
    ensures a >= 0 ==> a - a % s >= 0
  {
    var q := a / s;
    assert a == q * s + a % s;
    assert q <= -1 ==> q * s <= 0 - s;
    assert q >= 0 ==> q * s >= 0;
    DivModUnique(a - a % s, s, q, 0);
  }

  /** Only one multiple of s is at most a and more than a - s. */
  lemma RoundDownIff(a: int, base: int, s: int)
    requires s > 0 && base % s == 0
    ensures base <= a < base + s <==> a - a % s == base
  {
    RoundDown(a, s);
    if base <= a < base + s {
      DivModUnique(a, s, base / s, a - base);
    }
  }

  /** A multiple of a power of two is one of every smaller power. */
  lemma {:induction false} DividesDown(x: int, i: nat, j: nat)
    requires i <= j && x % Pow2(j) == 0
    ensures x % Pow2(i) == 0
  {
    if i == j {
    } else {
      HalfDivides(x, Pow2(j - 1));
      DividesDown(x, i, j - 1);
    }
  }

  lemma HalfDivides(x: int, p: int)
    requires p > 0 && x % (2 * p) == 0
    ensures x % p == 0
  {
    var q := x / (2 * p);
    assert x == q * (2 * p) == (2 * q) * p;
    DivModUnique(x, p, 2 * q, 0);
  }

  lemma ShiftAligned(base: int, i: nat, n: nat)
    requires base % Pow2(n) == 0
    ensures (base + ShiftLeft(i, n)) % Pow2(n) == 0
  {
    ShiftLeftValue(i, n);
    AlignedOffset(base, i, Pow2(n));
  }

  lemma AlignedOffset(base: int, i: int, s: int)
    requires s > 0 && base % s == 0
    ensures (base + i * s) % s == 0
  {
    var q := base / s;
    assert base + i * s == q * s + i * s == (q + i) * s;
    DivModUnique(base + i * s, s, q + i, 0);
  }

  /** The slot of width 2^n that holds d. */
  lemma SlotOf(d: nat, n: nat) returns (i: nat)
    ensures ShiftLeft(i, n) <= d < ShiftLeft(i + 1, n)
  {
    RoundDown(d, Pow2(n));
    i := d / Pow2(n);
    ShiftLeftValue(i, n);
    ShiftLeftNext(i, n);
  }

  /** Halving commutes with taking the remainder modulo a doubled power of two. */
  lemma HalveMod(x: int, n: nat)
    requires n > 0
    ensures x % Pow2(n) == 2 * ((x / 2) % Pow2(n - 1)) + x % 2
    ensures x / Pow2(n) == (x / 2) / Pow2(n - 1)
  {
    var p := Pow2(n - 1);
    var h := x / 2;
    var q, r := h / p, h % p;
    assert h == q * p + r;
    assert x == 2 * h + x % 2;
    assert q * (2 * p) == 2 * (q * p);
    DivModUnique(x, 2 * p, q, 2 * r + x % 2);
  }

  // ----- masks

  /** The low n bits of x, bit by bit. */
  function Low(x: int, n: nat): nat
    decreases n
  {
    if n == 0 then 0 else 2 * Low(x / 2, n - 1) + x % 2
  }

  lemma {:induction false} LowIsMod(x: int, n: nat)
    ensures Low(x, n) == x % Pow2(n)
    decreases n
  {
    if n == 0 {
    } else {
      LowIsMod(x / 2, n - 1);
      HalveMod(x, n);
    }
  }

  lemma {:induction false} LowOfMinusOne(n: nat)
    ensures Low(-1, n) == Pow2(n) - 1
    ensures Low(0, n) == 0
  {
    if n == 0 {
    } else {
      LowOfMinusOne(n - 1);
    }
  }

  /** `x & (2**n - 1)` keeps the low n bits. */
  lemma AndLowMask(x: int, n: nat)
    ensures And(x, Pow2(n) - 1) == x % Pow2(n)
  {
    AndLowBits(x, n);
    LowIsMod(x, n);
  }

  lemma {:induction false} AndLowBits(x: int, n: nat)
    ensures And(x, Pow2(n) - 1) == Low(x, n)
    decreases n
  {
    LowOfMinusOne(n);
    if n == 0 || x == 0 || x == -1 {
    } else {
      AndLowBits(x / 2, n - 1);
    }
  }

  lemma {:induction false} AndNonNegative(x: int, y: nat)
    ensures And(x, y) >= 0
    decreases y
  {
    if x == 0 || x == -1 || y == 0 {
    } else {
      AndNonNegative(x / 2, y / 2);
    }
  }

  lemma {:induction false} AndNotSelf(x: int)
    ensures And(x, Not(x)) == 0
    decreases Abs(x)
  {
    if x == 0 || x == -1 {
    } else {
      AndNotSelf(x / 2);
      assert Not(x) / 2 == Not(x / 2);
    }
  }

  /** A shifted number and one that fits in the cleared bits share none. */
  lemma {:induction false} OrShifted(x: nat, n: nat, y: nat)
    requires y < Pow2(n)
    ensures Or(ShiftLeft(x, n), y) == ShiftLeft(x, n) + y
  {
    if n == 0 {
    } else {
      OrShifted(x, n - 1, y / 2);
    }
  }

  // ----- the lowest set bit

  /** k is the number of trailing zero bits of x. */
  ghost predicate TrailingZeros(x: int, k: nat) {
    x % Pow2(k) == 0 && x % Pow2(k + 1) != 0
  }

  /** `x & -x` isolates the lowest set bit. */
  lemma {:induction false} LowestBit(x: nat) returns (k: nat)
    requires x > 0
    ensures And(x, Neg(x)) == Pow2(k) && TrailingZeros(x, k)
    decreases x
  {
    if x == 1 {
      k := 0;
      assert Pow2(1) == 2;
    } else if x % 2 == 1 {
      k := 0;
      assert Neg(x) / 2 == Not(x / 2);
      AndNotSelf(x / 2);
      assert Pow2(0) == 1 && Pow2(1) == 2;
    } else {
      var j := LowestBit(x / 2);
      k := j + 1;
      assert Neg(x) / 2 == Neg(x / 2) && Neg(x) % 2 == 0;
      HalveMod(x, k);
      HalveMod(x, k + 1);
    }
  }

  lemma {:induction false} BitLengthBounds(n: nat)
    ensures n == 0 <==> BitLength(n) == 0
    ensures n > 0 ==> Pow2(BitLength(n) - 1) <= n < Pow2(BitLength(n))
  {
    if n <= 1 {
    } else {
      BitLengthBounds(n / 2);
    }
  }

  lemma BitLengthPow2(k: nat)
    ensures BitLength(Pow2(k)) == k + 1
  {
    BitLengthBounds(Pow2(k));
    Pow2Order(BitLength(Pow2(k)) - 1, k);
    if BitLength(Pow2(k)) <= k {
      Pow2Monotone(BitLength(Pow2(k)), k);
    }
  }
}
