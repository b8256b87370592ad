/**
 * The vector passes of golden_softmax (scripts/tests/validate_softmax.py):
 * the maximum, the accumulate pass with its saturating 24-bit sum, the
 * log-sum and the normalise pass, first as functions of the input and then
 * as a method with the source's loops.
 */
module Softmax {
  import opened FixedPoint
  import opened SoftmaxStages
  /** golden_softmax: max, accumulate pass, log-sum, normalise pass. */
  method GoldenSoftmax(inputs: seq<int>, lut0: seq<int>, lut1: seq<int>) returns (outputs: seq<int>)
    requires |inputs| > 0 && ValidLuts(lut0, lut1)
    ensures outputs == SoftmaxSpec(inputs, lut0, lut1)
  {
    var maxVal := SeqMax(inputs);
    var expVals, sumAcc := ExpAccPass(inputs, maxVal, lut0, lut1);
    sumAcc := if sumAcc < SUM_MAX then sumAcc else SUM_MAX;
    assert sumAcc == SumAcc(inputs, lut0, lut1);
    var lnOffset := LnSumPass(sumAcc);
    outputs := NormPass(inputs, maxVal, lnOffset, lut0, lut1);
  }

  /** Phase EXP_ACC: one exp per input and their unsaturated sum. */
  method ExpAccPass(inputs: seq<int>, maxVal: int, lut0: seq<int>, lut1: seq<int>)
    returns (expVals: seq<int>, sumAcc: int)
    requires ValidLuts(lut0, lut1)
    ensures |expVals| == |inputs|
    ensures forall t :: 0 <= t < |inputs| ==> expVals[t] == ExpOf(inputs[t], maxVal, lut0, lut1)
    ensures sumAcc == SumExp(inputs, maxVal, lut0, lut1)
  {
    expVals := [];
    sumAcc := 0;
    for j := 0 to |inputs|
      invariant |expVals| == j
      invariant forall t :: 0 <= t < j ==> expVals[t] == ExpOf(inputs[t], maxVal, lut0, lut1)
      invariant sumAcc == SumExp(inputs[..j], maxVal, lut0, lut1)
    {
      var dRaw := maxVal - inputs[j];
      var dInt := dRaw / 128;
      var dFrac := dRaw % 128;
      var dQ47 := if dInt >= 16 then D_CLIP else dInt * 128 + dFrac;
      var ev := BipartiteExp(dQ47, lut0, lut1);
      expVals := expVals + [ev];
      assert inputs[..j + 1][..j] == inputs[..j];
      sumAcc := sumAcc + ev;
    }
    assert inputs[..|inputs|] == inputs;
  }

  /** Phase LN_SUM: the log-domain offset of the saturated sum. */
  method LnSumPass(sumAcc: nat) returns (lnOffset: int)
    ensures lnOffset == LnOffset(sumAcc)
  {
    if sumAcc == 0 {
      lnOffset := D_CLIP;
    } else {
      var k := Lod24(sumAcc);
      var s := LodMantissa(sumAcc, k);
      var kMinus15 := k as int - 15;
      var kln2 := kMinus15 * LN2_Q7;
      var ln1ps := LN1PS_LUT[s];
      var lnRaw := kln2 + ln1ps;
      if lnRaw < 0 {
        lnOffset := 0;
      } else if lnRaw >= D_CLIP {
        lnOffset := D_CLIP;
      } else {
        lnOffset := lnRaw;
      }
    }
  }

  /** Phase NORM: exp(-(max - x + ln(sum))) for every input. */
  method NormPass(inputs: seq<int>, maxVal: int, lnOffset: int, lut0: seq<int>, lut1: seq<int>)
    returns (outputs: seq<int>)
    requires ValidLuts(lut0, lut1)
    ensures |outputs| == |inputs|
    ensures forall t :: 0 <= t < |inputs| ==> outputs[t] == OutputAt(inputs[t], maxVal, lnOffset, lut0, lut1)
  {
    outputs := [];
    for j := 0 to |inputs|
      invariant |outputs| == j
      invariant forall t :: 0 <= t < j ==> outputs[t] == OutputAt(inputs[t], maxVal, lnOffset, lut0, lut1)
    {
      var dRaw := maxVal - inputs[j];
      var dInt := dRaw / 128;
      var dFrac := dRaw % 128;
      var dOverflow := dInt >= 16;
      var dQ47 := if dOverflow then D_CLIP else dInt * 128 + dFrac;
      var dPlusLn := dQ47 + lnOffset;
      var dNorm := if dOverflow || dPlusLn >= D_CLIP then D_CLIP else dPlusLn;
      var out := BipartiteExp(dNorm, lut0, lut1);
      outputs := outputs + [out];
    }
  }

  // ---------------------------------------------------------------------
  // Properties of the softmax
  // ---------------------------------------------------------------------

  /** An input 16.0 or more below the maximum is masked to output 0. */
  lemma SoftmaxMasksFarInputs(inputs: seq<int>, lut0: seq<int>, lut1: seq<int>, i: int)
    requires |inputs| > 0 && ValidLuts(lut0, lut1) && 0 <= i < |inputs|
    requires SeqMax(inputs) - inputs[i] >= D_CLIP
    ensures SoftmaxSpec(inputs, lut0, lut1)[i] == 0
  {
  }

  /** A zero exp sum forces the ln offset to the clip, so every output is 0. */
  lemma SoftmaxZeroSum(inputs: seq<int>, lut0: seq<int>, lut1: seq<int>)
    requires |inputs| > 0 && ValidLuts(lut0, lut1)
    requires SumAcc(inputs, lut0, lut1) == 0
    ensures forall i :: 0 <= i < |inputs| ==> SoftmaxSpec(inputs, lut0, lut1)[i] == 0
  {
  }

  /** Equal inputs get equal outputs (ties at the maximum share equally). */
  lemma SoftmaxEqualInputs(inputs: seq<int>, lut0: seq<int>, lut1: seq<int>, i: int, j: int)
    requires |inputs| > 0 && ValidLuts(lut0, lut1)
    requires 0 <= i < |inputs| && 0 <= j < |inputs| && inputs[i] == inputs[j]
    ensures SoftmaxSpec(inputs, lut0, lut1)[i] == SoftmaxSpec(inputs, lut0, lut1)[j]
  {
  }

  /** A distance-0 element reads both tables at address 0. */
  lemma ExpAtZeroDistance(x: int, lut0: seq<int>, lut1: seq<int>)
    requires ValidLuts(lut0, lut1)
    ensures ExpOf(x, x, lut0, lut1) == ClampExp(lut0[0] + lut1[0])
  {
    var d := x - x;
    assert d == 0;
    BipartiteExpAtZero(lut0, lut1);
  }

  lemma BipartiteExpAtZero(lut0: seq<int>, lut1: seq<int>)
    requires ValidLuts(lut0, lut1)
    ensures BipartiteExp(ClipDistance(0), lut0, lut1) == ClampExp(lut0[0] + lut1[0])
  {
    assert ClipDistance(0) == 0;
    assert BipartiteExp(0, lut0, lut1) == ClampExp(lut0[0] + lut1[0]);
  }

  /** With a distance of 0 the normalised distance is the ln offset itself. */
  lemma NormDistanceAtZero(lnOffset: int)
    requires 0 <= lnOffset <= D_CLIP
    ensures NormDistance(0, lnOffset) == lnOffset
  {
  }

  /**
   * An element equal to the maximum has distance 0: its exp in the accumulate
   * pass is the table value at address 0, and its output is exp(-ln(sum)).
   */
  lemma SoftmaxAtMaximum(inputs: seq<int>, lut0: seq<int>, lut1: seq<int>, i: int)
    requires |inputs| > 0 && ValidLuts(lut0, lut1)
    requires 0 <= i < |inputs| && inputs[i] == SeqMax(inputs)
    ensures ExpOf(inputs[i], SeqMax(inputs), lut0, lut1) == ClampExp(lut0[0] + lut1[0])
    ensures SoftmaxSpec(inputs, lut0, lut1)[i] == BipartiteExp(LnOffset(SumAcc(inputs, lut0, lut1)), lut0, lut1)
  {
    ExpAtZeroDistance(inputs[i], lut0, lut1);
    NormDistanceAtZero(LnOffset(SumAcc(inputs, lut0, lut1)));
  }

  /** The exp sum of a non-empty input is positive as soon as its maximum's exp is. */
  lemma {:induction false} SumExpAtLeastEach(xs: seq<int>, maxVal: int, lut0: seq<int>, lut1: seq<int>, i: int)
    requires ValidLuts(lut0, lut1) && 0 <= i < |xs|
    ensures SumExp(xs, maxVal, lut0, lut1) >= ExpOf(xs[i], maxVal, lut0, lut1)
  {
    if i < |xs| - 1 {
      assert xs[..|xs| - 1][i] == xs[i];
      SumExpAtLeastEach(xs[..|xs| - 1], maxVal, lut0, lut1, i);
    }
  }

  /**
   * If the table value for distance 0 is positive, the sum is never zero, so
   * the ln offset is at most 799 and the maximal element is not masked.
   */
  lemma SoftmaxSumPositive(inputs: seq<int>, lut0: seq<int>, lut1: seq<int>)
    requires |inputs| > 0 && ValidLuts(lut0, lut1)
    requires lut0[0] + lut1[0] > 0
    ensures SumAcc(inputs, lut0, lut1) > 0
    ensures LnOffset(SumAcc(inputs, lut0, lut1)) <= 799
  {
    var m := SeqMax(inputs);
    SeqMaxAttained(inputs);
    var i :| 0 <= i < |inputs| && inputs[i] == m;
    ExpAtZeroDistance(inputs[i], lut0, lut1);
    assert ExpOf(inputs[i], m, lut0, lut1) > 0;
    SumExpAtLeastEach(inputs, m, lut0, lut1, i);
    assert SumAcc(inputs, lut0, lut1) > 0;
    LnOffsetNonZeroSum(SumAcc(inputs, lut0, lut1));
  }
}
