/**
 * Integer helpers shared by every golden model: powers of two, leading-one
 * position, single-bit tests, two's-complement wrap, int8 conversion and
 * saturation.
 *
 * The golden models are written with Python's unbounded integers and bit
 * operators.  They are stated here arithmetically:
 *   x >> n             is  x / Pow2(n)   (Dafny's `/` by a positive divisor is
 *                                         floor division, like Python's `>>`)
 *   x << n             is  x * Pow2(n)
 *   x & (2^n - 1)      is  x % Pow2(n)   (non-negative, like Python's `&`)
 *   (a << n) | b       is  a * Pow2(n) + b  when 0 <= b < Pow2(n)
 */
module FixedPoint {

  type Byte = b: int | 0 <= b < 256

  function Pow2(n: nat): (r: int)
    ensures r >= 1
  {
    if n == 0 then 1 else 2 * Pow2(n - 1)
  }

  /** The powers of two that the fixed-point formats use, as literals. */
  lemma Pow2Values()
    ensures Pow2(3) == 8 && Pow2(4) == 16 && Pow2(6) == 64 && Pow2(7) == 128 && Pow2(8) == 256
    ensures Pow2(9) == 512 && Pow2(14) == 0x4000 && Pow2(15) == 0x8000 && Pow2(16) == 0x10000
    ensures Pow2(17) == 0x20000 && Pow2(18) == 0x40000 && Pow2(19) == 0x80000
    ensures Pow2(22) == 0x400000 && Pow2(23) == 0x800000 && Pow2(24) == 0x1000000
    ensures Pow2(32) == 0x1_0000_0000 && Pow2(33) == 0x2_0000_0000
  {
    assert Pow2(1) == 2;
    assert Pow2(2) == 4;
    assert Pow2(3) == 8;
    assert Pow2(4) == 16;
    assert Pow2(5) == 32;
    assert Pow2(6) == 64;
    assert Pow2(7) == 128;
    assert Pow2(8) == 256;
    assert Pow2(9) == 512;
    assert Pow2(10) == 1024;
    assert Pow2(11) == 2048;
    assert Pow2(12) == 4096;
    assert Pow2(13) == 8192;
    assert Pow2(14) == 16384;
    assert Pow2(15) == 32768;
    assert Pow2(16) == 65536;
    assert Pow2(17) == 131072;
    assert Pow2(18) == 262144;
    assert Pow2(19) == 524288;
    assert Pow2(20) == 1048576;
    assert Pow2(21) == 2097152;
    assert Pow2(22) == 4194304;
    assert Pow2(23) == 8388608;
    assert Pow2(24) == 16777216;
    assert Pow2(25) == 33554432;
    assert Pow2(26) == 67108864;
    assert Pow2(27) == 134217728;
    assert Pow2(28) == 268435456;
    assert Pow2(29) == 536870912;
    assert Pow2(30) == 1073741824;
    assert Pow2(31) == 2147483648;
    assert Pow2(32) == 4294967296;
    assert Pow2(33) == 8589934592;
  }

  lemma {:induction false} Pow2Add(a: nat, b: nat)
    ensures Pow2(a + b) == Pow2(a) * Pow2(b)
  {
    if b > 0 {
      Pow2Add(a, b - 1);
      assert Pow2(a + b) == 2 * Pow2(a + b - 1);
    }
  }

  lemma {:induction false} Pow2Strict(a: nat, b: nat)
    requires a < b
    ensures Pow2(a) < Pow2(b)
  {
    if a + 1 < b {
      Pow2Strict(a, b - 1);
    }
  }

  lemma Pow2Mono(a: nat, b: nat)
    requires a <= b
    ensures Pow2(a) <= Pow2(b)
  {
    if a < b {
      Pow2Strict(a, b);
    }
  }

  /** Position of the most significant set bit of v (0 for v < 2). */
  function Log2Floor(v: nat): nat
  {
    if v < 2 then 0 else 1 + Log2Floor(v / 2)
  }

  lemma {:induction false} Log2FloorBounds(v: nat)
    requires v > 0
    ensures Pow2(Log2Floor(v)) <= v < Pow2(Log2Floor(v) + 1)
  {
    if v >= 2 {
      Log2FloorBounds(v / 2);
    }
  }

  /** The leading-one position is the unique k with 2^k <= v < 2^(k+1). */
  lemma {:induction false} Log2FloorUnique(v: nat, k: nat)
    requires Pow2(k) <= v < Pow2(k + 1)
    ensures Log2Floor(v) == k
  {
    if k > 0 {
      assert Pow2(k) == 2 * Pow2(k - 1);
      Log2FloorUnique(v / 2, k - 1);
    }
  }

  /** A positive value below 2^n has its leading one below bit n. */
  lemma {:induction false} Log2FloorBelow(v: nat, n: nat)
    requires 0 < v < Pow2(n)
    ensures Log2Floor(v) < n
  {
    if v >= 2 {
      assert n >= 1;
      assert v / 2 < Pow2(n - 1);
      Log2FloorBelow(v / 2, n - 1);
    }
  }

  /**
   * One step of a leading-one scan over bits 0, 1, 2, ...: after looking at
   * bit i, the last set bit seen is the leading one of the low i + 1 bits.
   */
  lemma Log2FloorStep(v: nat, i: nat, k: nat)
    requires k == Log2Floor(v % Pow2(i))
    ensures (if Bit(v, i) == 1 then i else k) == Log2Floor(v % Pow2(i + 1))
  {
    ModPow2Step(v, i);
    if Bit(v, i) == 1 {
      assert Pow2(i + 1) == 2 * Pow2(i);
      Log2FloorUnique(v % Pow2(i + 1), i);
    }
  }

  /** Bit i of v: Python's `v & (1 << i) != 0` for v >= 0. */
  function Bit(v: nat, i: nat): nat
  {
    (v / Pow2(i)) % 2
  }

  lemma MulPositiveFactor(d: int, m: int)
    requires m > 0 && d * m > 0
    ensures d > 0
  {
  }

  lemma MulLeMono(a: int, b: int, m: int)
    requires a <= b && m >= 0
    ensures a * m <= b * m
  {
    assert b * m - a * m == (b - a) * m;
  }

  lemma MulStrictMono(a: int, b: int, m: int)
    requires a < b && m > 0
    ensures a * m < b * m
  {
    assert b * m - a * m == (b - a) * m;
  }

  /** Cancelling a positive factor from a strict inequality. */
  lemma MulStrictCancel(a: int, n: int, m: int)
    requires m > 0 && a * m < n * m
    ensures a < n
  {
    assert (n - a) * m == n * m - a * m;
    MulPositiveFactor(n - a, m);
  }

  /** Quotient and remainder are determined by x == q * m + r with 0 <= r < m. */
  lemma DivModUnique(x: int, m: int, q: int, r: int)
    requires m > 0 && 0 <= r < m && x == q * m + r
    ensures x / m == q && x % m == r
  {
    var q', r' := x / m, x % m;
    assert q * m + r == q' * m + r';
    assert (q - q') * m == r' - r;
    assert (q - q') * m < 1 * m;
    MulStrictCancel(q - q', 1, m);
    assert (q' - q) * m == r - r';
    assert (q' - q) * m < 1 * m;
    MulStrictCancel(q' - q, 1, m);
  }

  /** Floor division by a positive divisor is monotonic. */
  lemma DivMono(x: int, y: int, m: int)
    requires x <= y && m > 0
    ensures x / m <= y / m
  {
    var a, b := x / m, y / m;
    assert a * m <= x && y < (b + 1) * m;
    MulStrictCancel(a, b + 1, m);
  }

  /** Reading one more low bit: v mod 2^(i+1) = v mod 2^i + 2^i * bit_i(v). */
  lemma ModPow2Step(v: nat, i: nat)
    ensures v % Pow2(i + 1) == v % Pow2(i) + Pow2(i) * Bit(v, i)
  {
    assert Pow2(i + 1) == 2 * Pow2(i);
    ModDoubleStep(v, Pow2(i));
  }

  lemma ModDoubleStep(v: nat, p: int)
    requires p > 0
    ensures v % (2 * p) == v % p + p * ((v / p) % 2)
  {
    var q, r := v / p, v % p;
    var h, b := q / 2, q % 2;
    assert v == q * p + r;
    assert q == 2 * h + b;
    MulSplit(h, b, p);
    assert v == h * (2 * p) + (b * p + r);
    if b == 0 {
      MulZero(p, b);
      DivModUnique(v, 2 * p, h, r);
    } else {
      MulOne(p, b);
      DivModUnique(v, 2 * p, h, p + r);
    }
  }

  lemma MulZero(p: int, b: int)
    requires b == 0
    ensures p * b == 0 && b * p == 0
  {
  }

  lemma MulOne(p: int, b: int)
    requires b == 1
    ensures p * b == p && b * p == p
  {
  }

  lemma MulSplit(h: int, b: int, p: int)
    ensures (2 * h + b) * p == h * (2 * p) + b * p
  {
  }

  /** (x / m) / n == x / (m * n) for positive m and n: two floor shifts compose. */
  lemma DivDiv(x: int, m: int, n: int)
    requires m > 0 && n > 0
    ensures (x / m) / n == x / (m * n)
  {
    var q, r := x / (m * n), x % (m * n);
    var a, b := r / m, r % m;
    assert a * m < n * m;
    MulStrictCancel(a, n, m);
    MulRegroup(q, n, a, m);
    assert x == (q * n + a) * m + b;
    DivModUnique(x, m, q * n + a, b);
    DivModUnique(q * n + a, n, q, a);
  }

  lemma MulRegroup(q: int, n: int, a: int, m: int)
    ensures q * (m * n) + a * m == (q * n + a) * m
  {
  }

  /**
   * Python's `x >> n` on an unbounded int, one bit at a time (only division by
   * the constant 2 appears, which keeps the solver's arithmetic linear).
   */
  function Asr(x: int, n: nat): int
    decreases n
  {
    if n == 0 then x else Asr(x / 2, n - 1)
  }

  /** Python's `x << n`. */
  function Shl(x: int, n: nat): int
    decreases n
  {
    if n == 0 then x else 2 * Shl(x, n - 1)
  }

  /** `x >> n` is floor division by 2^n. */
  lemma {:induction false} AsrIsDiv(x: int, n: nat)
    ensures Asr(x, n) == x / Pow2(n)
    decreases n
  {
    if n > 0 {
      AsrIsDiv(x / 2, n - 1);
      DivDiv(x, 2, Pow2(n - 1));
    }
  }

  /** `x << n` is multiplication by 2^n. */
  lemma {:induction false} ShlIsMul(x: int, n: nat)
    ensures Shl(x, n) == x * Pow2(n)
  {
    if n > 0 {
      ShlIsMul(x, n - 1);
    }
  }

  /** Python's `x & ((1 << n) - 1)`: the low n bits of x, one bit at a time. */
  function LowBits(x: int, n: nat): nat
    decreases n
  {
    if n == 0 then 0 else 2 * LowBits(x / 2, n - 1) + x % 2
  }

  /** The low n bits are the non-negative remainder modulo 2^n. */
  lemma {:induction false} LowBitsIsMod(x: int, n: nat)
    ensures LowBits(x, n) == x % Pow2(n)
    ensures 0 <= LowBits(x, n) < Pow2(n)
    decreases n
  {
    if n > 0 {
      var p := Pow2(n - 1);
      LowBitsIsMod(x / 2, n - 1);
      var q, r := (x / 2) / p, (x / 2) % p;
      assert x == 2 * (x / 2) + x % 2;
      assert x / 2 == q * p + r;
      assert x == q * (2 * p) + (2 * r + x % 2);
      DivModUnique(x, 2 * p, q, 2 * r + x % 2);
    }
  }

  /** The shifted value brackets x between consecutive multiples of 2^n. */
  lemma AsrBounds(x: int, n: nat)
    ensures Pow2(n) * Asr(x, n) <= x < Pow2(n) * (Asr(x, n) + 1)
  {
    AsrIsDiv(x, n);
  }

  lemma AsrMono(x: int, y: int, n: nat)
    requires x <= y
    ensures Asr(x, n) <= Asr(y, n)
  {
    AsrIsDiv(x, n);
    AsrIsDiv(y, n);
    DivMono(x, y, Pow2(n));
  }

  /** Shifting a value that was shifted left by a: `(x << a) >> (a + b) == x >> b`. */
  lemma AsrOfShiftedLeft(x: int, a: nat, b: nat)
    ensures Asr(Shl(x, a), a + b) == Asr(x, b)
  {
    ShlIsMul(x, a);
    AsrIsDiv(Shl(x, a), a + b);
    AsrIsDiv(x, b);
    Pow2Add(a, b);
    DivDiv(x * Pow2(a), Pow2(a), Pow2(b));
    DivModUnique(x * Pow2(a), Pow2(a), x, 0);
  }

  /**
   * The w-bit two's-complement wrap written in the golden models as
   * `v &= (1 << w) - 1; if v >= (1 << (w-1)): v -= (1 << w)`.
   */
  function WrapSigned(v: int, w: nat): (r: int)
    requires w >= 1
    ensures -Pow2(w - 1) <= r < Pow2(w - 1)
  {
    assert Pow2(w) == 2 * Pow2(w - 1);
    if v % Pow2(w) >= Pow2(w - 1) then v % Pow2(w) - Pow2(w) else v % Pow2(w)
  }

  lemma WrapCongruentAux(v: int, p: int, h: int, r: int)
    requires p > 0 && p == 2 * h
    requires r == if v % p >= h then v % p - p else v % p
    ensures r % p == v % p
  {
    if v % p >= h {
      DivModUnique(r, p, -1, v % p);
    } else {
      DivModUnique(r, p, 0, v % p);
    }
  }

  /** The wrap keeps the value modulo 2^w: it only drops the bits above w. */
  lemma WrapSignedCongruent(v: int, w: nat)
    requires w >= 1
    ensures WrapSigned(v, w) % Pow2(w) == v % Pow2(w)
  {
    var p, h := Pow2(w), Pow2(w - 1);
    assert p == 2 * h;
    WrapCongruentAux(v, p, h, WrapSigned(v, w));
  }

  /** The wrap is the identity on values that already fit in w signed bits. */
  lemma WrapSignedId(v: int, w: nat)
    requires w >= 1 && -Pow2(w - 1) <= v < Pow2(w - 1)
    ensures WrapSigned(v, w) == v
  {
    assert Pow2(w) == 2 * Pow2(w - 1);
    if v >= 0 {
      DivModUnique(v, Pow2(w), 0, v);
    } else {
      DivModUnique(v, Pow2(w), -1, v + Pow2(w));
    }
  }

  /** `b - 256 if b >= 128 else b`: an unsigned byte read as int8. */
  function ToSigned8(b: int): int
  {
    if b >= 128 then b - 256 else b
  }

  /** `max(-128, min(127, v))`: saturate to int8. */
  function ClampInt8(v: int): (r: int)
    ensures -128 <= r <= 127
    ensures -128 <= v <= 127 ==> r == v
    ensures v > 127 ==> r == 127
    ensures v < -128 ==> r == -128
  {
    if v > 127 then 127 else if v < -128 then -128 else v
  }

  lemma ClampInt8Mono(a: int, b: int)
    requires a <= b
    ensures ClampInt8(a) <= ClampInt8(b)
  {
  }

  /** to_signed8 maps the bytes onto [-128, 127] and `& 0xFF` undoes it. */
  lemma ToSigned8Bijection(b: int)
    requires 0 <= b < 256
    ensures -128 <= ToSigned8(b) <= 127
    ensures ToSigned8(b) % 256 == b
  {
  }

  /** Every int8 value is the reading of exactly one byte, namely `v & 0xFF`. */
  lemma ToSigned8Onto(v: int)
    requires -128 <= v <= 127
    ensures 0 <= v % 256 < 256 && ToSigned8(v % 256) == v
    ensures forall b :: 0 <= b < 256 && ToSigned8(b) == v ==> b == v % 256
  {
  }
}
