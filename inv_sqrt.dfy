/**
 * The reciprocal square root of the hardware: leading-one detection over the
 * low `dw` bits, normalisation so that the leading one sits at bit dw-1, a
 * 512-entry table addressed by the parity of the leading-one position and the
 * eight bits below it, and a barrel shift by half that position.
 *
 * golden_inv_sqrt appears twice in the validators, once with D_W = 14
 * (validate_inv_sqrt.py) and once with D_W = 17 (validate_layernorm.py); the
 * width is a parameter here.
 */
module InvSqrt {
  import opened FixedPoint

  /** The width of the stand-alone inverse-square-root block. */
  const D_W_BLOCK: nat := 14

  /** The width of the copy inside the LayerNorm model. */
  const D_W_LAYERNORM: nat := 17

  /** The value returned for d == 0, without reading the table. */
  const ZERO_RESULT: int := 0xFFFF

  /** The bits above the table's eight mantissa bits must exist: `D_W - 9 >= 0`. */
  predicate ValidWidth(dw: nat)
  {
    dw >= 9
  }

  /** The leading-one loop's result: the highest set bit of d below bit dw (0 if none). */
  function Lod(d: nat, dw: nat): (k: nat)
    requires dw >= 1
    ensures k < dw
  {
    LowBitsIsMod(d, dw);
    LodBelowWidth(LowBits(d, dw), dw);
    Log2Floor(LowBits(d, dw))
  }

  lemma LodBelowWidth(v: nat, dw: nat)
    requires dw >= 1 && v < Pow2(dw)
    ensures Log2Floor(v) < dw
  {
    if v > 0 {
      Log2FloorBelow(v, dw);
    }
  }

  /** `norm_shift = (D_W - 1) - k`. */
  function NormShift(d: nat, dw: nat): nat
    requires dw >= 1
  {
    dw - 1 - Lod(d, dw)
  }

  /** `d_norm = (d << norm_shift) & ((1 << D_W) - 1)`. */
  function NormValue(d: nat, dw: nat): nat
    requires dw >= 1
  {
    LowBits(Shl(d, NormShift(d, dw)), dw)
  }

  /** `mantissa = (d_norm >> (D_W - 9)) & 0xFF`. */
  function Mantissa(d: nat, dw: nat): (m: nat)
    requires ValidWidth(dw)
    ensures m < 256
  {
    Asr(NormValue(d, dw), dw - 9) % 256
  }

  /** `lut_addr = ((k & 1) << 8) | mantissa`: the two fields do not overlap. */
  function Addr(d: nat, dw: nat): (a: nat)
    requires ValidWidth(dw)
    ensures a < 512
    ensures a / 256 == Lod(d, dw) % 2 && a % 256 == Mantissa(d, dw)
  {
    (Lod(d, dw) % 2) * 256 + Mantissa(d, dw)
  }

  /** The table holds the entry a non-zero d reads; otherwise the source raises IndexError. */
  predicate TableCovers(d: nat, dw: nat, lut: seq<int>)
    requires ValidWidth(dw)
  {
    d == 0 || Addr(d, dw) < |lut|
  }

  /** golden_inv_sqrt as a function of d. */
  function InvSqrtSpec(d: nat, dw: nat, lut: seq<int>): (r: int)
    requires ValidWidth(dw) && TableCovers(d, dw, lut)
    ensures d == 0 ==> r == ZERO_RESULT
  {
    if d == 0 then ZERO_RESULT else Asr(lut[Addr(d, dw)], Lod(d, dw) / 2)
  }

  /** golden_inv_sqrt: the zero bypass, the leading-one loop, then shifts and masks. */
  method GoldenInvSqrt(d: nat, dw: nat, lut: seq<int>) returns (result: int)
    requires ValidWidth(dw) && TableCovers(d, dw, lut)
    ensures result == InvSqrtSpec(d, dw, lut)
  {
    if d == 0 {
      return 0xFFFF;
    }
    var k: nat := 0;
    for i := 0 to dw
      invariant k == Log2Floor(d % Pow2(i))
    {
      Log2FloorStep(d, i, k);
      if Bit(d, i) == 1 {
        k := i;
      }
    }
    LowBitsIsMod(d, dw);
    assert k == Lod(d, dw);
    var normShift := dw - 1 - k;
    var dNorm := LowBits(Shl(d, normShift), dw);
    var mantissa := Asr(dNorm, dw - 9) % 256;
    var lutAddr := (k % 2) * 256 + mantissa;
    var lutOut := lut[lutAddr];
    result := Asr(lutOut, k / 2);
  }

  // ---------------------------------------------------------------------
  // Properties
  // ---------------------------------------------------------------------

  /** For 0 < d < 2^dw the loop finds the leading one: 2^k <= d < 2^(k+1). */
  lemma LodBrackets(d: nat, dw: nat)
    requires dw >= 1 && 0 < d < Pow2(dw)
    ensures Lod(d, dw) == Log2Floor(d)
    ensures Pow2(Lod(d, dw)) <= d < Pow2(Lod(d, dw) + 1)
  {
    LowBitsIsMod(d, dw);
    DivModUnique(d, Pow2(dw), 0, d);
    Log2FloorBounds(d);
  }

  /**
   * Normalisation loses no bits: for 0 < d < 2^dw the mask does nothing,
   * `d_norm == d << (dw-1-k)`, and its leading one is bit dw-1.
   */
  lemma NormValueExact(d: nat, dw: nat)
    requires dw >= 1 && 0 < d < Pow2(dw)
    ensures NormValue(d, dw) == d * Pow2(NormShift(d, dw))
    ensures Pow2(dw - 1) <= NormValue(d, dw) < Pow2(dw)
  {
    var k := Lod(d, dw);
    var s := NormShift(d, dw);
    LodBrackets(d, dw);
    ShlIsMul(d, s);
    Pow2Add(k, s);
    Pow2Add(k + 1, s);
    assert k + s == dw - 1;
    MulLeMono(Pow2(k), d, Pow2(s));
    MulStrictMono(d, Pow2(k + 1), Pow2(s));
    assert Pow2(dw) == 2 * Pow2(dw - 1);
    LowBitsIsMod(d * Pow2(s), dw);
    DivModUnique(d * Pow2(s), Pow2(dw), 0, d * Pow2(s));
  }

  /** The result never exceeds the table entry it was read from. */
  lemma ResultAtMostEntry(d: nat, dw: nat, lut: seq<int>)
    requires ValidWidth(dw) && d > 0 && TableCovers(d, dw, lut)
    requires lut[Addr(d, dw)] >= 0
    ensures 0 <= InvSqrtSpec(d, dw, lut) <= lut[Addr(d, dw)]
  {
    AsrIsDiv(lut[Addr(d, dw)], Lod(d, dw) / 2);
  }

  /** With 16-bit table entries every result is a 16-bit value. */
  lemma ResultIs16Bit(d: nat, dw: nat, lut: seq<int>)
    requires ValidWidth(dw) && TableCovers(d, dw, lut)
    requires forall i :: 0 <= i < |lut| ==> 0 <= lut[i] <= 0xFFFF
    ensures 0 <= InvSqrtSpec(d, dw, lut) <= 0xFFFF
  {
    if d > 0 {
      ResultAtMostEntry(d, dw, lut);
    }
  }

  /** A power of two 2^k below 2^dw has mantissa 0 and address (k & 1) << 8. */
  lemma PowerOfTwoAddr(k: nat, dw: nat)
    requires ValidWidth(dw) && k < dw
    ensures Lod(Pow2(k), dw) == k
    ensures Mantissa(Pow2(k), dw) == 0
    ensures Addr(Pow2(k), dw) == (k % 2) * 256
  {
    LodOfPower(k, dw);
    NormOfPower(k, dw);
    MantissaOfTopBit(dw);
  }

  lemma LodOfPower(k: nat, dw: nat)
    requires dw >= 1 && k < dw
    ensures Pow2(k) < Pow2(dw)
    ensures Lod(Pow2(k), dw) == k
  {
    Pow2Strict(k, dw);
    assert Pow2(k + 1) == 2 * Pow2(k);
    Log2FloorUnique(Pow2(k), k);
    LodBrackets(Pow2(k), dw);
  }

  lemma NormOfPower(k: nat, dw: nat)
    requires dw >= 1 && k < dw
    ensures NormValue(Pow2(k), dw) == Pow2(dw - 1)
  {
    LodOfPower(k, dw);
    NormValueExact(Pow2(k), dw);
    Pow2Add(k, NormShift(Pow2(k), dw));
  }

  /** The leading one at bit dw-1 lies just above the eight mantissa bits. */
  lemma MantissaOfTopBit(dw: nat)
    requires ValidWidth(dw)
    ensures Asr(Pow2(dw - 1), dw - 9) % 256 == 0
  {
    Pow2Add(dw - 9, 8);
    AsrIsDiv(Pow2(dw - 1), dw - 9);
    Pow2Values();
    DivModUnique(Pow2(dw - 1), Pow2(dw - 9), 256, 0);
  }

  /** The example of the validator: d = 4 reads entry 0 and halves it. */
  lemma InvSqrtOfFour(dw: nat, lut: seq<int>)
    requires ValidWidth(dw) && TableCovers(4, dw, lut)
    ensures InvSqrtSpec(4, dw, lut) == Asr(lut[0], 1)
  {
    Pow2Values();
    assert Pow2(2) == 4;
    PowerOfTwoAddr(2, dw);
  }

  /**
   * Quadrupling d keeps the table address and shifts the result by one more
   * bit: 1/sqrt(4d) = (1/sqrt(d)) / 2.
   */
  lemma QuadrupleInput(d: nat, dw: nat, lut: seq<int>)
    requires ValidWidth(dw) && TableCovers(d, dw, lut) && 0 < d && 4 * d < Pow2(dw)
    ensures Lod(4 * d, dw) == Lod(d, dw) + 2
    ensures Addr(4 * d, dw) == Addr(d, dw)
    ensures InvSqrtSpec(4 * d, dw, lut) == Asr(lut[Addr(d, dw)], Lod(d, dw) / 2 + 1)
  {
    AddrQuadruple(d, dw);
    var k := Lod(d, dw);
    assert (k + 2) / 2 == k / 2 + 1;
  }

  lemma AddrQuadruple(d: nat, dw: nat)
    requires ValidWidth(dw) && 0 < d && 4 * d < Pow2(dw)
    ensures Lod(4 * d, dw) == Lod(d, dw) + 2
    ensures Addr(4 * d, dw) == Addr(d, dw)
  {
    var k := Lod(d, dw);
    LodQuadruple(d, dw);
    NormQuadruple(d, dw);
    assert Mantissa(4 * d, dw) == Mantissa(d, dw);
    assert (k + 2) % 2 == k % 2;
  }

  lemma LodQuadruple(d: nat, dw: nat)
    requires dw >= 1 && 0 < d && 4 * d < Pow2(dw)
    ensures Lod(4 * d, dw) == Lod(d, dw) + 2
  {
    var k := Lod(d, dw);
    LodBrackets(d, dw);
    LodBrackets(4 * d, dw);
    assert Pow2(k + 2) == 4 * Pow2(k);
    assert Pow2(k + 3) == 4 * Pow2(k + 1);
    Log2FloorUnique(4 * d, k + 2);
  }

  lemma NormQuadruple(d: nat, dw: nat)
    requires dw >= 1 && 0 < d && 4 * d < Pow2(dw)
    ensures NormValue(4 * d, dw) == NormValue(d, dw)
  {
    LodQuadruple(d, dw);
    NormValueExact(d, dw);
    NormValueExact(4 * d, dw);
    var s := NormShift(d, dw);
    assert NormShift(4 * d, dw) == s - 2;
    assert Pow2(s) == 4 * Pow2(s - 2);
    MulShuffle(d, Pow2(s - 2));
  }

  lemma MulShuffle(d: int, p: int)
    ensures (4 * d) * p == d * (4 * p)
  {
  }
}
