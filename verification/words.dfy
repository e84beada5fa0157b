/**
 * Machine words of the C++ source, as unbounded integers.
 *
 * The source works on uint8_t, uint16_t, uint32_t, uint64_t and size_t and
 * relies on their wrap-around, on masks of the form `x & (2^k - 1)` and on
 * the rounding idiom `x & ~(a - 1)`. This module names the widths, gives a
 * bitwise AND on naturals, and proves the two mask identities the rest of
 * the model uses to write those masks as `%` and `-`.
 */
module Words {

  const TWO8: int := 0x100
  const TWO16: int := 0x1_0000
  const TWO32: int := 0x1_0000_0000
  const TWO64: int := 0x1_0000_0000_0000_0000

  /** An unsigned 8-bit value (uint8_t / unsigned char). */
  type byte = x: int | 0 <= x < 0x100

  /** 2^k. */
  function Pow2(k: nat): (r: nat)
    ensures r >= 1
  {
    if k == 0 then 1 else 2 * Pow2(k - 1)
  }

  /** The widths used in the source, as powers of two. */
  lemma Pow2Of6()
    ensures Pow2(6) == 64
  {
  }

  lemma Pow2Of8()
    ensures Pow2(8) == TWO8
  {
  }

  lemma Pow2Of24()
    ensures Pow2(24) == 0x100_0000
  {
    Pow2Of8();
    Pow2Add(16, 8);
    Pow2Add(8, 8);
  }

  lemma Pow2Of64()
    ensures Pow2(64) == TWO64
  {
    Pow2Of8();
    Pow2Add(8, 8);
    assert Pow2(16) == TWO16;
    Pow2Add(16, 16);
    assert Pow2(32) == TWO32;
    Pow2Add(32, 32);
  }

  lemma {:induction false} Pow2Add(j: nat, k: nat)
    ensures Pow2(j + k) == Pow2(j) * Pow2(k)
  {
    if k > 0 {
      Pow2Add(j, k - 1);
    }
  }

  lemma {:induction false} Pow2Mono(j: nat, k: nat)
    requires j <= k
    ensures Pow2(j) <= Pow2(k)
  {
    if j < k {
      Pow2Mono(j, k - 1);
    }
  }

  /** A power of two: 1, 2, 4, 8, ... */
  predicate IsPow2(a: nat)
    decreases a
  {
    a == 1 || (a >= 2 && a % 2 == 0 && IsPow2(a / 2))
  }

  /** The exponent of a power of two. */
  function Log2(a: nat): (k: nat)
    requires IsPow2(a)
    ensures Pow2(k) == a
    decreases a
  {
    if a == 1 then 0 else 1 + Log2(a / 2)
  }

  /** Bitwise AND of two naturals, built bit by bit from the least significant bit. */
  function And(x: nat, y: nat): (r: nat)
    ensures r <= x && r <= y
    decreases x
  {
    if x == 0 || y == 0 then 0
    else 2 * And(x / 2, y / 2) + (if x % 2 == 1 && y % 2 == 1 then 1 else 0)
  }

  /** A positive multiple of a positive number is at least that number. */
  lemma MulAtLeast(d: int, t: int)
    requires d > 0 && t >= 1
    ensures d * t >= d
  {
  }

  /** Euclidean division: x is d times its quotient plus its remainder. */
  lemma DivMod(x: int, d: int)
    requires d > 0
    ensures x == d * (x / d) + x % d && 0 <= x % d < d
  {
  }

  /** Euclidean division is unique. */
  lemma ModUnique(x: int, d: int, q: int, s: int)
    requires d > 0 && 0 <= s < d && x == d * q + s
    ensures x % d == s && x / d == q
  {
    var q', s' := x / d, x % d;
    assert x == d * q' + s';
    assert d * (q - q') == s' - s;
    if q - q' >= 1 {
      MulAtLeast(d, q - q');
      assert false;
    } else if q' - q >= 1 {
      MulAtLeast(d, q' - q);
      assert false;
    }
  }

  /** Reducing the left operand of a sum first does not change the sum's remainder. */
  lemma ModAddLeft(x: int, y: int, d: int)
    requires d > 0
    ensures (x % d + y) % d == (x + y) % d
  {
    DivMod(x, d);
    DivMod(x % d + y, d);
    ModUnique(x + y, d, x / d + (x % d + y) / d, (x % d + y) % d);
  }

  /** Dropping the lowest bit and putting it back: `x % 2m` from `(x / 2) % m`. */
  lemma HalveMod(x: nat, m: nat)
    requires m >= 1
    ensures 2 * ((x / 2) % m) + x % 2 == x % (2 * m)
  {
    var h := x / 2;
    var q, b := h / m, h % m;
    assert h == m * q + b;
    assert x == 2 * h + x % 2;
    assert x == (2 * m) * q + (2 * b + x % 2);
    ModUnique(x, 2 * m, q, 2 * b + x % 2);
  }

  /** The low k bits of x as a number, taken one bit at a time (x % 2^k). */
  function LowBits(x: nat, k: nat): nat
  {
    if k == 0 then 0 else 2 * LowBits(x / 2, k - 1) + x % 2
  }

  /** The low k bits are the remainder modulo 2^k. */
  lemma {:induction false} LowBitsMod(x: nat, k: nat)
    ensures LowBits(x, k) == x % Pow2(k)
  {
    if k == 0 {
      assert x % 1 == 0;
    } else {
      LowBitsMod(x / 2, k - 1);
      HalveMod(x, Pow2(k - 1));
      assert Pow2(k) == 2 * Pow2(k - 1);
    }
  }

  /** A number below 2^w is its own low w bits. */
  lemma {:induction false} LowBitsAll(x: nat, w: nat)
    requires x < Pow2(w)
    ensures LowBits(x, w) == x
  {
    if w > 0 {
      LowBitsAll(x / 2, w - 1);
    }
  }

  /** `x & (2^k - 1)` keeps the low k bits. */
  lemma {:induction false} AndLowBits(x: nat, k: nat)
    ensures And(x, Pow2(k) - 1) == LowBits(x, k)
  {
    if k > 0 {
      var m := Pow2(k - 1);
      assert Pow2(k) == 2 * m;
      ModUnique(Pow2(k) - 1, 2, m - 1, 1);
      AndLowBits(x / 2, k - 1);
    }
  }

  /** `x & (2^k - 1)` keeps the low k bits: it is `x % 2^k`. */
  lemma AndLowMask(x: nat, k: nat)
    ensures And(x, Pow2(k) - 1) == x % Pow2(k)
  {
    AndLowBits(x, k);
    LowBitsMod(x, k);
  }

  /** `x & (2^w - 2^k)`, for a w-bit x, clears the low k bits. */
  lemma {:induction false} AndClearLowBits(x: nat, k: nat, w: nat)
    requires k <= w && x < Pow2(w)
    ensures Pow2(k) <= Pow2(w)
    ensures And(x, Pow2(w) - Pow2(k)) == x - LowBits(x, k)
    decreases k
  {
    Pow2Mono(k, w);
    if k == 0 {
      AndLowBits(x, w);
      LowBitsAll(x, w);
    } else if x == 0 {
      LowBitsZero(k);
    } else {
      var h, j, v := x / 2, k - 1, w - 1;
      assert h < Pow2(v);
      AndClearLowBits(h, j, v);
      AndClearStep(x, h, k, j, w, v);
    }
  }

  lemma {:induction false} LowBitsZero(k: nat)
    ensures LowBits(0, k) == 0
  {
    if k > 0 {
      LowBitsZero(k - 1);
    }
  }

  /** One step of AndClearLowBits: the claim for x follows from the claim for x / 2. */
  lemma AndClearStep(x: nat, h: nat, k: nat, j: nat, w: nat, v: nat)
    requires 1 <= k <= w && 1 <= x && h == x / 2 && j == k - 1 && v == w - 1
    requires Pow2(j) <= Pow2(v)
    requires And(h, Pow2(v) - Pow2(j)) == h - LowBits(h, j)
    ensures Pow2(k) <= Pow2(w)
    ensures And(x, Pow2(w) - Pow2(k)) == x - LowBits(x, k)
  {
    AndDropLowBit(x, h, k, j, w, v);
    LowBitsStep(x, h, k, j);
    assert x == 2 * h + x % 2;
  }

  lemma LowBitsStep(x: nat, h: nat, k: nat, j: nat)
    requires 1 <= k && h == x / 2 && j == k - 1
    ensures LowBits(x, k) == 2 * LowBits(h, j) + x % 2
  {
  }

  /** Clearing the bits k..w-1 of x with the lowest bit of x removed: the mask loses its lowest bit too. */
  lemma AndDropLowBit(x: nat, h: nat, k: nat, j: nat, w: nat, v: nat)
    requires 1 <= k <= w && 1 <= x && h == x / 2 && j == k - 1 && v == w - 1
    requires Pow2(j) <= Pow2(v)
    ensures Pow2(k) <= Pow2(w)
    ensures And(x, Pow2(w) - Pow2(k)) == 2 * And(h, Pow2(v) - Pow2(j))
  {
    var m, n := Pow2(j), Pow2(v);
    assert Pow2(k) == 2 * m && Pow2(w) == 2 * n;
    ModUnique(Pow2(w) - Pow2(k), 2, n - m, 0);
  }

  /**
   * `x & (2^w - 2^k)`, for a w-bit x, clears the low k bits: it is `x - x % 2^k`.
   * With w = 64 this is the source's `x & ~(a - 1)` for a = 2^k.
   */
  lemma AndClearLow(x: nat, k: nat, w: nat)
    requires k <= w && x < Pow2(w)
    ensures Pow2(k) <= Pow2(w)
    ensures And(x, Pow2(w) - Pow2(k)) == x - x % Pow2(k)
  {
    Pow2Mono(k, w);
    AndClearLowBits(x, k, w);
    LowBitsMod(x, k);
  }
}
