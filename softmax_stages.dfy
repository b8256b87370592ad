/**
 * Golden model of the SafeSoftmax engine (scripts/tests/validate_softmax.py):
 * a bipartite-table exp(-d), leading-one detection on the 24-bit sum, a
 * log-domain offset ln(sum) and a second table pass that replaces the
 * division.  Logits are Q.7 fixed point, distances Q4.7 clipped at 16.0,
 * outputs Q1.15 in [0, 32768].
 *
 * The two 256-entry exp tables are parameters: lut0 (unsigned) and lut1
 * (signed corrections).
 */
module SoftmaxStages {
  import opened FixedPoint

  const FRAC_W: nat := 7
  /** 16.0 in Q4.7: the distance clip and the "masked" value. */
  const D_CLIP: int := 2048
  /** round(ln(2) * 128) */
  const LN2_Q7: int := 89
  /** round(ln(1 + s/16) * 128) for s in 0..15 */
  const LN1PS_LUT: seq<int> := [0, 8, 15, 22, 29, 35, 41, 47, 53, 58, 63, 68, 73, 78, 82, 87]
  /** 1.0 in Q1.15: the largest exp value. */
  const EXP_MAX: int := 32768
  /** The exp sum saturates at 24 bits. */
  const SUM_MAX: int := 0xFFFFFF

  predicate ValidLuts(lut0: seq<int>, lut1: seq<int>)
  {
    |lut0| == 256 && |lut1| == 256
  }

  // ---------------------------------------------------------------------
  // Bipartite exp(-d)
  // ---------------------------------------------------------------------

  /** x0 = (d >> 6) & 0x1F: the five high bits of the distance. */
  function FieldX0(d: int): int { (d / 64) % 32 }

  /** x1 = (d >> 3) & 0x07 */
  function FieldX1(d: int): int { (d / 8) % 8 }

  /** x2 = d & 0x07 */
  function FieldX2(d: int): int { d % 8 }

  /** Address of the coarse table: (x0 << 3) | x1. */
  function Addr0(d: int): (a: int)
    ensures 0 <= a < 256
  {
    FieldX0(d) * 8 + FieldX1(d)
  }

  /** Address of the correction table: (x0 << 3) | x2. */
  function Addr1(d: int): (a: int)
    ensures 0 <= a < 256
  {
    FieldX0(d) * 8 + FieldX2(d)
  }

  /** The exp value saturated to [0, 1.0]. */
  function ClampExp(v: int): int
  {
    if v < 0 then 0 else if v > EXP_MAX then EXP_MAX else v
  }

  /** exp(-d) in Q1.15 from two table reads, saturated to [0, 32768]. */
  function BipartiteExp(d: int, lut0: seq<int>, lut1: seq<int>): (r: int)
    requires ValidLuts(lut0, lut1)
    ensures 0 <= r <= EXP_MAX
    ensures d >= D_CLIP ==> r == 0
  {
    if d >= D_CLIP then 0 else ClampExp(lut0[Addr0(d)] + lut1[Addr1(d)])
  }

  /**
   * An in-range distance splits into fields that recombine to it.  The coarse
   * address is d >> 3 and the correction address pairs x0 with the low bits.
   */
  lemma BipartiteFields(d: int)
    requires 0 <= d < D_CLIP
    ensures FieldX0(d) * 64 + FieldX1(d) * 8 + FieldX2(d) == d
    ensures 0 <= FieldX0(d) < 32 && 0 <= FieldX1(d) < 8 && 0 <= FieldX2(d) < 8
    ensures Addr0(d) == d / 8
    ensures Addr1(d) == (d / 64) * 8 + d % 8
  {
  }

  /** Below the clip the output is the saturated table sum at the two addresses. */
  lemma BipartiteExpInRange(d: int, lut0: seq<int>, lut1: seq<int>)
    requires ValidLuts(lut0, lut1) && d < D_CLIP
    ensures BipartiteExp(d, lut0, lut1) == ClampExp(lut0[Addr0(d)] + lut1[Addr1(d)])
  {
  }


  // ---------------------------------------------------------------------
  // Leading-one detection and the 4-bit mantissa
  // ---------------------------------------------------------------------

  /** What lod24 computes: the highest set bit among bits 0..23 (0 if none). */
  function LeadingOne24(v: nat): nat
  {
    Log2Floor(v % 0x1000000)
  }

  lemma LeadingOne24Bounds(v: nat)
    requires 0 < v < 0x1000000
    ensures LeadingOne24(v) < 24
    ensures Pow2(LeadingOne24(v)) <= v < Pow2(LeadingOne24(v) + 1)
  {
    Pow2Values();
    DivModUnique(v, 0x1000000, 0, v);
    Log2FloorBounds(v);
    Log2FloorBelow(v, 24);
  }

  /** lod24: scan bits 0..23 upwards, remembering the last set one. */
  method Lod24(v: nat) returns (k: nat)
    ensures k == LeadingOne24(v)
    ensures v == 0 ==> k == 0
    ensures 0 < v < 0x1000000 ==> Pow2(k) <= v < Pow2(k + 1)
  {
    if v == 0 {
      return 0;
    }
    k := 0;
    for i := 0 to 24
      invariant k == Log2Floor(v % Pow2(i))
    {
      Log2FloorStep(v, i, k);
      if Bit(v, i) == 1 {
        k := i;
      }
    }
    Pow2Values();
    if v < 0x1000000 {
      LeadingOne24Bounds(v);
    }
  }

  /** lod_mantissa: the four bits just below the leading one at position k. */
  function LodMantissa(v: int, k: nat): (m: int)
    ensures 0 <= m <= 15
  {
    if k >= 4 then Asr(v, k - 4) % 16 else Shl(v, 4 - k) % 16
  }

  /**
   * Normalising v so that its leading one sits at bit 4 gives 16 + mantissa:
   * the mantissa holds exactly the bits below the leading one.
   */
  lemma LodMantissaNormalises(v: nat)
    requires v > 0
    ensures var k := Log2Floor(v);
      (if k >= 4 then Asr(v, k - 4) else Shl(v, 4 - k)) == 16 + LodMantissa(v, k)
  {
    var k := Log2Floor(v);
    Log2FloorBounds(v);
    if k >= 4 {
      Pow2Add(k - 4, 4);
      Pow2Add(k - 4, 5);
      assert Pow2(4) == 16 && Pow2(5) == 32;
      AsrIsDiv(v, k - 4);
      NormaliseDown(v, Pow2(k - 4));
    } else {
      Pow2Add(k, 4 - k);
      Pow2Add(k + 1, 4 - k);
      assert Pow2(4) == 16 && Pow2(5) == 32;
      ShlIsMul(v, 4 - k);
      NormaliseUp(v, Pow2(k), Pow2(4 - k));
    }
  }

  /** Shifting right: 16p <= v < 32p puts v / p in [16, 32). */
  lemma NormaliseDown(v: int, p: int)
    requires p > 0 && p * 16 <= v < p * 32
    ensures 16 <= v / p < 32 && (v / p) % 16 == v / p - 16
  {
    var q := v / p;
    assert p * q <= v < p * (q + 1);
    assert 16 * p < (q + 1) * p;
    MulStrictCancel(16, q + 1, p);
    assert q * p < 32 * p;
    MulStrictCancel(q, 32, p);
    DivModUnique(q, 16, 1, q - 16);
  }

  /** Shifting left: with lo * p == 16, lo <= v < 2 lo puts v * p in [16, 32). */
  lemma NormaliseUp(v: int, lo: int, p: int)
    requires p > 0 && lo * p == 16 && lo <= v < 2 * lo
    ensures 16 <= v * p < 32 && (v * p) % 16 == v * p - 16
  {
    MulLeMono(lo, v, p);
    MulStrictMono(v, 2 * lo, p);
    assert (2 * lo) * p == 2 * (lo * p);
    DivModUnique(v * p, 16, 1, v * p - 16);
  }

  // ---------------------------------------------------------------------
  // Log-domain sum
  // ---------------------------------------------------------------------

  /** ln(sum) in Q.7 relative to 1.0 = 2^15, clipped to [0, D_CLIP]. */
  function LnOffset(sumAcc: nat): (r: int)
    ensures 0 <= r <= D_CLIP
    ensures sumAcc == 0 ==> r == D_CLIP
  {
    if sumAcc == 0 then D_CLIP
    else if LnRaw(sumAcc) < 0 then 0
    else if LnRaw(sumAcc) >= D_CLIP then D_CLIP
    else LnRaw(sumAcc)
  }

  /** ln_raw = (k - 15) * ln2 + ln(1 + s/16), with k the leading one and s the mantissa. */
  function LnRaw(sumAcc: nat): int
  {
    (LeadingOne24(sumAcc) - 15) * LN2_Q7 + LN1PS_LUT[LodMantissa(sumAcc, LeadingOne24(sumAcc))]
  }

  /**
   * A non-zero 24-bit sum never reaches the clip: the offset is at most
   * 8 * ln2 + ln(1 + 15/16) = 799 in Q.7, so only the zero-sum branch yields
   * D_CLIP.
   */
  lemma LnOffsetNonZeroSum(sumAcc: nat)
    requires 0 < sumAcc <= SUM_MAX
    ensures 0 <= LnOffset(sumAcc) <= 799
  {
    Pow2Values();
    LeadingOne24Bounds(sumAcc);
  }

  // ---------------------------------------------------------------------
  // Distances
  // ---------------------------------------------------------------------

  /**
   * d_q47 of the accumulate pass: the integer part d_raw >> 7 and the fraction
   * d_raw & 127, clipped to D_CLIP when the integer part reaches 16.  For a
   * non-negative distance this is min(d_raw, D_CLIP).
   */
  function ClipDistance(dRaw: int): (r: int)
    ensures dRaw >= 0 ==> r == if dRaw >= D_CLIP then D_CLIP else dRaw
  {
    if dRaw / 128 >= 16 then D_CLIP else (dRaw / 128) * 128 + dRaw % 128
  }

  /** d_norm of the normalise pass: clipped distance plus ln offset, re-clipped. */
  function NormDistance(dRaw: int, lnOffset: int): (r: int)
    ensures r <= D_CLIP
    ensures dRaw >= 0 && lnOffset >= 0 ==> r >= 0
    ensures dRaw >= 0 && lnOffset >= 0 ==>
      r == if dRaw + lnOffset >= D_CLIP then D_CLIP else dRaw + lnOffset
  {
    if dRaw / 128 >= 16 || ClipDistance(dRaw) + lnOffset >= D_CLIP then D_CLIP
    else ClipDistance(dRaw) + lnOffset
  }

  /** A non-negative distance and offset normalise into [0, D_CLIP]. */
  lemma NormDistanceBounded(dRaw: int, lnOffset: int)
    requires dRaw >= 0 && 0 <= lnOffset
    ensures 0 <= NormDistance(dRaw, lnOffset) <= D_CLIP
  {
  }

  // ---------------------------------------------------------------------
  // The whole softmax as functions of the input
  // ---------------------------------------------------------------------

  /** Python's max() over a non-empty list. */
  function SeqMax(s: seq<int>): (m: int)
    requires |s| > 0
    ensures forall i :: 0 <= i < |s| ==> s[i] <= m
  {
    if |s| == 1 then s[0]
    else
      assert forall i :: 0 <= i < |s| - 1 ==> s[i] == s[..|s| - 1][i];
      if s[|s| - 1] > SeqMax(s[..|s| - 1]) then s[|s| - 1] else SeqMax(s[..|s| - 1])
  }

  /** The maximum is one of the elements. */
  lemma {:induction false} SeqMaxAttained(s: seq<int>)
    requires |s| > 0
    ensures exists i :: 0 <= i < |s| && s[i] == SeqMax(s)
  {
    if |s| == 1 {
      assert s[0] == SeqMax(s);
    } else if s[|s| - 1] > SeqMax(s[..|s| - 1]) {
      assert s[|s| - 1] == SeqMax(s);
    } else {
      SeqMaxAttained(s[..|s| - 1]);
      var i :| 0 <= i < |s| - 1 && s[..|s| - 1][i] == SeqMax(s[..|s| - 1]);
      assert s[i] == SeqMax(s);
    }
  }

  /** exp(-(max - x)) of the accumulate pass. */
  function ExpOf(x: int, maxVal: int, lut0: seq<int>, lut1: seq<int>): int
    requires ValidLuts(lut0, lut1)
  {
    BipartiteExp(ClipDistance(maxVal - x), lut0, lut1)
  }

  /** The unsaturated sum of the accumulate pass. */
  function SumExp(xs: seq<int>, maxVal: int, lut0: seq<int>, lut1: seq<int>): (r: int)
    requires ValidLuts(lut0, lut1)
    ensures r >= 0
  {
    if xs == [] then 0
    else SumExp(xs[..|xs| - 1], maxVal, lut0, lut1) + ExpOf(xs[|xs| - 1], maxVal, lut0, lut1)
  }

  /** sum_acc after min(sum_acc, 0xFFFFFF). */
  function SumAcc(inputs: seq<int>, lut0: seq<int>, lut1: seq<int>): (r: nat)
    requires |inputs| > 0 && ValidLuts(lut0, lut1)
    ensures r <= SUM_MAX
  {
    if SumExp(inputs, SeqMax(inputs), lut0, lut1) < SUM_MAX then SumExp(inputs, SeqMax(inputs), lut0, lut1)
    else SUM_MAX
  }

  /** Output for one element: it depends only on x, the maximum and the ln offset. */
  function OutputAt(x: int, maxVal: int, lnOffset: int, lut0: seq<int>, lut1: seq<int>): int
    requires ValidLuts(lut0, lut1)
  {
    BipartiteExp(NormDistance(maxVal - x, lnOffset), lut0, lut1)
  }

  function SoftmaxSpec(inputs: seq<int>, lut0: seq<int>, lut1: seq<int>): (out: seq<int>)
    requires |inputs| > 0 && ValidLuts(lut0, lut1)
    ensures |out| == |inputs|
    ensures forall i :: 0 <= i < |out| ==> 0 <= out[i] <= EXP_MAX
  {
    seq(|inputs|, i requires 0 <= i < |inputs| =>
      OutputAt(inputs[i], SeqMax(inputs), LnOffset(SumAcc(inputs, lut0, lut1)), lut0, lut1))
  }
}
