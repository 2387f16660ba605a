/** Fixed-width arithmetic of the C sources: bit masks, two's complement and wrap-around. */
module Bits {

  function Pow2(k: nat): (p: nat)
    ensures p >= 1
  {
    if k == 0 then 1 else 2 * Pow2(k - 1)
  }

  /** Bitwise `a & b` of two unsigned numbers. */
  function And(a: nat, b: nat): nat
    decreases b
  {
    if a == 0 || b == 0 then 0
    else 2 * And(a / 2, b / 2) + (if a % 2 == 1 && b % 2 == 1 then 1 else 0)
  }

  /** `x & (n - 1)` where x was computed in the 16-bit two's complement `int` of the AVR. */
  function Masked(x: int, n: nat): nat
    requires n >= 1
  {
    And(x % 0x10000, n - 1)
  }

  /** Conversion of an integer to int16_t. */
  function Int16(x: int): (r: int)
    ensures -0x8000 <= r < 0x8000
  {
    (x + 0x8000) % 0x10000 - 0x8000
  }

  /** Conversion of an integer to int32_t. */
  function Int32(x: int): (r: int)
    ensures -0x8000_0000 <= r < 0x8000_0000
  {
    (x + 0x8000_0000) % 0x1_0000_0000 - 0x8000_0000
  }

  /** Conversion of an integer to uint32_t. */
  function Uint32(x: int): (r: nat)
    ensures r < 0x1_0000_0000
  {
    x % 0x1_0000_0000
  }

  /** Conversion of a real to an integer type: the fraction is dropped. */
  function Truncate(x: real): (r: int)
  {
    if x >= 0.0 then x.Floor else -((-x).Floor)
  }

  lemma MulSpread(d: int, n: nat)
    ensures d >= 1 ==> d * n >= n
    ensures d <= -1 ==> d * n <= 0 - n
  {
    if d >= 1 {
      assert (d - 1) * n >= 0;
    } else if d <= -1 {
      assert (-1 - d) * n >= 0;
    }
  }

  lemma QuotientUnique(q: int, r: int, n: nat)
    requires 0 <= r < n
    ensures (q * n + r) % n == r && (q * n + r) / n == q
  {
    var x := q * n + r;
    var d := x / n - q;
    assert x == (x / n) * n + x % n;
    assert d * n == (x / n) * n - q * n;
    MulSpread(d, n);
  }

  /** Doubling the modulus: the low bit of a joins the remainder of a / 2. */
  lemma ModDouble(a: nat, p: nat)
    requires p >= 1
    ensures a % (2 * p) == 2 * ((a / 2) % p) + a % 2
  {
    var q, r := (a / 2) / p, (a / 2) % p;
    assert a / 2 == q * p + r;
    assert a == 2 * (q * p + r) + a % 2;
    assert q * (2 * p) == 2 * (q * p);
    QuotientUnique(q, 2 * r + a % 2, 2 * p);
  }

  /** Multiples of the modulus do not matter. */
  lemma ModShift(x: int, k: int, n: nat)
    requires n >= 1
    ensures (x + k * n) % n == x % n
  {
    var q, r := x / n, x % n;
    assert x == q * n + r;
    assert x + k * n == (q + k) * n + r;
    QuotientUnique(q + k, r, n);
  }

  lemma ModDown(x: nat, n: nat)
    requires n >= 1
    ensures x % n == if x < n then x else (x - n) % n
  {
    if x < n {
      QuotientUnique(0, x, n);
    } else {
      ModShift(x - n, 1, n);
    }
  }

  lemma AndZero(a: nat)
    ensures And(a, 0) == 0
  {
  }

  lemma AndStep(a: nat, b: nat)
    ensures And(a, b) == 2 * And(a / 2, b / 2) + (if a % 2 == 1 && b % 2 == 1 then 1 else 0)
  {
  }

  /** A mask of k low ones keeps the remainder modulo 2^k. */
  lemma {:induction false} AndMaskIsMod(a: nat, k: nat)
    ensures And(a, Pow2(k) - 1) == a % Pow2(k)
    decreases k
  {
    hide And;
    if k == 0 {
      AndZero(a);
    } else {
      var p := Pow2(k - 1);
      var m := 2 * p - 1;
      assert m / 2 == p - 1 && m % 2 == 1;
      AndMaskIsMod(a / 2, k - 1);
      AndStep(a, m);
      ModDouble(a, p);
    }
  }

  lemma {:induction false} Pow2Divides(j: nat, k: nat)
    requires j <= k
    ensures exists m: nat :: Pow2(k) == m * Pow2(j)
    decreases k
  {
    if j == k {
      assert Pow2(k) == 1 * Pow2(j);
    } else {
      Pow2Divides(j, k - 1);
      var m: nat :| Pow2(k - 1) == m * Pow2(j);
      assert Pow2(k) == (2 * m) * Pow2(j);
    }
  }

  /** Reducing first modulo a multiple of n changes nothing. */
  lemma ModOfMod(x: int, n: nat, m: nat)
    requires n >= 1 && m >= 1
    ensures m * n >= 1
    ensures (x % (m * n)) % n == x % n
  {
    MulSpread(m, n);
    var w := m * n;
    var y, q := x % w, x / w;
    assert x == q * w + y;
    assert y == (y / n) * n + y % n;
    assert q * w == (q * m) * n;
    assert x == (q * m + y / n) * n + y % n;
    QuotientUnique(q * m + y / n, y % n, n);
  }

  /** Masking a 16-bit difference or sum is reduction modulo the power of two. */
  lemma MaskedIsMod(x: int, n: nat, k: nat)
    requires k <= 16 && n == Pow2(k)
    ensures Masked(x, n) == x % n
  {
    AndMaskIsMod(x % 0x10000, k);
    Pow2Divides(k, 16);
    Pow2Is16();
    var m: nat :| Pow2(16) == m * n;
    ModOfMod(x, n, m);
  }

  lemma Pow2Is16()
    ensures Pow2(16) == 0x10000 && Pow2(8) == 256
  {
    assert Pow2(4) == 16;
    assert Pow2(8) == 256;
    assert Pow2(12) == 4096;
  }

  /** Index arithmetic of a ring: one wrap in either direction. */
  lemma MaskedWraps(x: int, n: nat)
    requires exists k: nat :: k <= 16 && n == Pow2(k)
    requires 0 - n <= x < 2 * n
    ensures Masked(x, n) == if x < 0 then x + n else if x < n then x else x - n
  {
    var k: nat :| k <= 16 && n == Pow2(k);
    MaskedIsMod(x, n, k);
    if x < 0 {
      QuotientUnique(-1, x + n, n);
    } else if x < n {
      QuotientUnique(0, x, n);
    } else {
      QuotientUnique(1, x - n, n);
    }
  }
}
