/**
 * The multiply-shift-saturate requantiser (golden_requant in
 * validate_requant.py): a signed accumulator times an unsigned scale, wrapped
 * to acc_w + scale_w signed bits, shifted arithmetically right, clamped to
 * int8 and returned as the byte `clamped & 0xFF`.
 */
module Requant {
  import opened FixedPoint

  /** One hardware configuration: accumulator width, scale width, shift. */
  datatype Config = Config(accW: nat, scaleW: nat, shift: nat)

  /** The two configurations of the test bench. */
  const DUT_A: Config := Config(24, 16, 22)
  const DUT_B: Config := Config(19, 16, 19)
  const DUTS: map<string, Config> := map["A" := DUT_A, "B" := DUT_B]

  /** `prod_w = acc_w + scale_w`; the wrap needs at least one bit. */
  function ProdW(accW: nat, scaleW: nat): nat
  {
    accW + scaleW
  }

  /** `product`: acc * scale wrapped to prod_w signed bits. */
  function Product(acc: int, scale: int, accW: nat, scaleW: nat): int
    requires ProdW(accW, scaleW) >= 1
  {
    WrapSigned(acc * scale, ProdW(accW, scaleW))
  }

  /** `shifted = product >> shift`. */
  function Shifted(acc: int, scale: int, shift: nat, accW: nat, scaleW: nat): int
    requires ProdW(accW, scaleW) >= 1
  {
    Asr(Product(acc, scale, accW, scaleW), shift)
  }

  /** golden_requant: the clamped value as an unsigned byte. */
  function GoldenRequant(acc: int, scale: int, shift: nat, accW: nat, scaleW: nat): (out: int)
    requires ProdW(accW, scaleW) >= 1
    ensures 0 <= out < 256
    ensures ToSigned8(out) == ClampInt8(Shifted(acc, scale, shift, accW, scaleW))
  {
    ClampInt8(Shifted(acc, scale, shift, accW, scaleW)) % 256
  }

  /** What a configuration accepts: an acc_w-bit signed acc and a scale_w-bit unsigned scale. */
  predicate InRange(acc: int, scale: int, accW: nat, scaleW: nat)
  {
    accW >= 1 && -Pow2(accW - 1) <= acc < Pow2(accW - 1) && 0 <= scale < Pow2(scaleW)
  }

  // ---------------------------------------------------------------------
  // Properties
  // ---------------------------------------------------------------------

  /** Inputs of the configured widths never wrap: the product is the exact product. */
  lemma ProductExact(acc: int, scale: int, accW: nat, scaleW: nat)
    requires InRange(acc, scale, accW, scaleW)
    ensures Product(acc, scale, accW, scaleW) == acc * scale
  {
    var h, p := Pow2(accW - 1), Pow2(scaleW);
    Pow2Add(accW - 1, scaleW);
    assert ProdW(accW, scaleW) - 1 == accW - 1 + scaleW;
    if acc >= 0 {
      MulLeMono(acc, h, scale);
      MulStrictMono(scale, p, h);
      assert acc * scale < h * p;
      assert 0 <= acc * scale;
    } else {
      MulLeMono(-h, acc, scale);
      MulLeMono(scale, p, h);
      assert -(h * p) <= acc * scale;
      assert acc * scale <= 0;
    }
    WrapSignedId(acc * scale, ProdW(accW, scaleW));
  }

  /** The shift is floor division: shifted brackets the product between multiples of 2^shift. */
  lemma ShiftIsFloor(acc: int, scale: int, shift: nat, accW: nat, scaleW: nat)
    requires ProdW(accW, scaleW) >= 1
    ensures Shifted(acc, scale, shift, accW, scaleW) == Product(acc, scale, accW, scaleW) / Pow2(shift)
    ensures Pow2(shift) * Shifted(acc, scale, shift, accW, scaleW) <= Product(acc, scale, accW, scaleW)
    ensures Product(acc, scale, accW, scaleW) < Pow2(shift) * (Shifted(acc, scale, shift, accW, scaleW) + 1)
  {
    AsrIsDiv(Product(acc, scale, accW, scaleW), shift);
    AsrBounds(Product(acc, scale, accW, scaleW), shift);
  }

  /** A product of at least 128 * 2^shift saturates to 0x7F. */
  lemma SaturatesHigh(acc: int, scale: int, shift: nat, accW: nat, scaleW: nat)
    requires ProdW(accW, scaleW) >= 1
    requires Product(acc, scale, accW, scaleW) >= 128 * Pow2(shift)
    ensures GoldenRequant(acc, scale, shift, accW, scaleW) == 0x7F
  {
    ShiftIsFloor(acc, scale, shift, accW, scaleW);
    QuotientAtLeast(Product(acc, scale, accW, scaleW), Pow2(shift), Shifted(acc, scale, shift, accW, scaleW), 128);
  }

  lemma QuotientAtLeast(p: int, m: int, q: int, c: int)
    requires m > 0 && p < m * (q + 1) && p >= c * m
    ensures q >= c
  {
    assert c * m < (q + 1) * m;
    MulStrictCancel(c, q + 1, m);
  }

  /** A product below -128 * 2^shift saturates to 0x80. */
  lemma SaturatesLow(acc: int, scale: int, shift: nat, accW: nat, scaleW: nat)
    requires ProdW(accW, scaleW) >= 1
    requires Product(acc, scale, accW, scaleW) < -128 * Pow2(shift)
    ensures GoldenRequant(acc, scale, shift, accW, scaleW) == 0x80
  {
    var q := Shifted(acc, scale, shift, accW, scaleW);
    ShiftIsFloor(acc, scale, shift, accW, scaleW);
    assert q * Pow2(shift) < -128 * Pow2(shift);
    MulStrictCancel(q, -128, Pow2(shift));
  }

  /** A zero accumulator or a zero scale gives the byte 0x00. */
  lemma ZeroGivesZero(acc: int, scale: int, shift: nat, accW: nat, scaleW: nat)
    requires ProdW(accW, scaleW) >= 1 && (acc == 0 || scale == 0)
    ensures GoldenRequant(acc, scale, shift, accW, scaleW) == 0
  {
    assert acc * scale == 0;
    WrapSignedId(0, ProdW(accW, scaleW));
    AsrIsDiv(0, shift);
  }

  /** For a fixed scale the signed output is monotone in the accumulator. */
  lemma MonotoneInAcc(acc1: int, acc2: int, scale: int, shift: nat, accW: nat, scaleW: nat)
    requires InRange(acc1, scale, accW, scaleW) && InRange(acc2, scale, accW, scaleW)
    requires acc1 <= acc2
    ensures ToSigned8(GoldenRequant(acc1, scale, shift, accW, scaleW))
      <= ToSigned8(GoldenRequant(acc2, scale, shift, accW, scaleW))
  {
    ProductExact(acc1, scale, accW, scaleW);
    ProductExact(acc2, scale, accW, scaleW);
    MulLeMono(acc1, acc2, scale);
    AsrMono(acc1 * scale, acc2 * scale, shift);
    ClampInt8Mono(Shifted(acc1, scale, shift, accW, scaleW), Shifted(acc2, scale, shift, accW, scaleW));
  }

  /**
   * The shift-only setting: a scale of 2^(scale_w - 1) (1.0 in the scale's
   * fixed point) gives clamp(acc >> (shift - scale_w + 1)).
   */
  lemma ShiftOnlyScale(acc: int, shift: nat, accW: nat, scaleW: nat)
    requires scaleW >= 1 && shift >= scaleW - 1
    requires InRange(acc, Pow2(scaleW - 1), accW, scaleW)
    ensures ToSigned8(GoldenRequant(acc, Pow2(scaleW - 1), shift, accW, scaleW))
      == ClampInt8(Asr(acc, shift - (scaleW - 1)))
  {
    ProductExact(acc, Pow2(scaleW - 1), accW, scaleW);
    ShlIsMul(acc, scaleW - 1);
    AsrOfShiftedLeft(acc, scaleW - 1, shift - (scaleW - 1));
  }

  /** Configuration A: scale 32768 is `acc >> 7`. */
  lemma ShiftOnlyDutA(acc: int)
    requires -0x80_0000 <= acc < 0x80_0000
    ensures ToSigned8(GoldenRequant(acc, 32768, DUT_A.shift, DUT_A.accW, DUT_A.scaleW)) == ClampInt8(Asr(acc, 7))
  {
    Pow2Values();
    ShiftOnlyScale(acc, 22, 24, 16);
  }

  /** Configuration B: scale 32768 is `acc >> 4`. */
  lemma ShiftOnlyDutB(acc: int)
    requires -0x4_0000 <= acc < 0x4_0000
    ensures ToSigned8(GoldenRequant(acc, 32768, DUT_B.shift, DUT_B.accW, DUT_B.scaleW)) == ClampInt8(Asr(acc, 4))
  {
    Pow2Values();
    ShiftOnlyScale(acc, 19, 19, 16);
  }
}
