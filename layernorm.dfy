/**
 * The integer LayerNorm of the hardware (golden_layernorm in
 * validate_layernorm.py): a mean pass, a centred-variance pass, the 17-bit
 * reciprocal square root of the variance, and a normalise pass with a 33-bit
 * signed product, a rounding shift by 15, an 18-bit signed add of beta and int8
 * saturation.
 */
module LayerNorm {
  import opened FixedPoint
  import opened SeqFacts
  import opened InvSqrt

  /** Number of features normalised; also the length of each gamma/beta slice. */
  const DIM: int := 128

  // ---------------------------------------------------------------------
  // Passes 1 and 2: mean and variance
  // ---------------------------------------------------------------------

  /** Python's sum() over a list of ints. */
  function Sum(xs: seq<int>): int
  {
    if xs == [] then 0 else Sum(xs[..|xs| - 1]) + xs[|xs| - 1]
  }

  /** `mean = total >> 7`, a floor division of the total by 128. */
  function Mean(inputs: seq<int>): int
  {
    Sum(inputs) / 128
  }

  /** `centered = [x - mean for x in inputs]`. */
  function Centered(inputs: seq<int>): (c: seq<int>)
    ensures |c| == |inputs|
    ensures forall i :: 0 <= i < |c| ==> c[i] == inputs[i] - Mean(inputs)
  {
    seq(|inputs|, i requires 0 <= i < |inputs| => inputs[i] - Mean(inputs))
  }

  /** `sum(d * d for d in ds)`. */
  function SumSquares(ds: seq<int>): nat
  {
    if ds == [] then 0 else SumSquares(ds[..|ds| - 1]) + ds[|ds| - 1] * ds[|ds| - 1]
  }

  /** `var_acc`: the sum of the squared centred values. */
  function VarAcc(inputs: seq<int>): nat
  {
    SumSquares(Centered(inputs))
  }

  /** `isqrt_input = var_acc >> 7`. */
  function IsqrtInput(inputs: seq<int>): nat
  {
    VarAcc(inputs) / 128
  }

  /** `inv_std`: the 17-bit reciprocal square root of isqrt_input. */
  function InvStd(inputs: seq<int>, isqrtLut: seq<int>): int
    requires TableCovers(IsqrtInput(inputs), D_W_LAYERNORM, isqrtLut)
  {
    InvSqrtSpec(IsqrtInput(inputs), D_W_LAYERNORM, isqrtLut)
  }

  // ---------------------------------------------------------------------
  // Pass 3: normalise one element
  // ---------------------------------------------------------------------

  /** `full_prod = diff * inv_std * g`, wrapped to 33 signed bits. */
  function FullProd(diff: int, invStd: int, gammaByte: int): int
  {
    WrapSigned(diff * invStd * ToSigned8(gammaByte), 33)
  }

  /** `biased = ((full_prod + 16384) >> 15) + b`, wrapped to 18 signed bits. */
  function Biased(fullProd: int, betaByte: int): int
  {
    WrapSigned((fullProd + 16384) / 32768 + ToSigned8(betaByte), 18)
  }

  /** One output of pass 3: `max(-128, min(127, biased))`. */
  function NormOutput(diff: int, invStd: int, gammaByte: int, betaByte: int): int
  {
    ClampInt8(Biased(FullProd(diff, invStd, gammaByte), betaByte))
  }

  /** What golden_layernorm requires of its arguments: DIM entries to index. */
  predicate ValidArgs(inputs: seq<int>, gammaBytes: seq<int>, betaBytes: seq<int>, isqrtLut: seq<int>)
  {
    |inputs| >= DIM && |gammaBytes| >= DIM && |betaBytes| >= DIM
    && TableCovers(IsqrtInput(inputs), D_W_LAYERNORM, isqrtLut)
  }

  /** golden_layernorm as a function of its arguments. */
  function LayerNormSpec(inputs: seq<int>, gammaBytes: seq<int>, betaBytes: seq<int>, isqrtLut: seq<int>)
    : (out: seq<int>)
    requires ValidArgs(inputs, gammaBytes, betaBytes, isqrtLut)
    ensures |out| == DIM
    ensures forall i :: 0 <= i < DIM ==> -128 <= out[i] <= 127
  {
    seq(DIM, i requires 0 <= i < DIM =>
      NormOutput(Centered(inputs)[i], InvStd(inputs, isqrtLut), gammaBytes[i], betaBytes[i]))
  }

  /** golden_layernorm: passes 1 and 2 as sums, the reciprocal square root, then the pass-3 loop. */
  method GoldenLayerNorm(inputs: seq<int>, gammaBytes: seq<int>, betaBytes: seq<int>, isqrtLut: seq<int>)
    returns (outputs: seq<int>)
    requires ValidArgs(inputs, gammaBytes, betaBytes, isqrtLut)
    ensures outputs == LayerNormSpec(inputs, gammaBytes, betaBytes, isqrtLut)
  {
    var total := Sum(inputs);
    var mean := total / 128;
    var centered := seq(|inputs|, j requires 0 <= j < |inputs| => inputs[j] - mean);
    assert centered == Centered(inputs);
    var varAcc := SumSquares(centered);
    var isqrtInput := varAcc / 128;
    var invStd := GoldenInvSqrt(isqrtInput, D_W_LAYERNORM, isqrtLut);
    assert invStd == InvStd(inputs, isqrtLut);
    ghost var spec := LayerNormSpec(inputs, gammaBytes, betaBytes, isqrtLut);
    outputs := [];
    for i := 0 to DIM
      invariant outputs == spec[..i]
    {
      var y := NormElement(centered[i], invStd, gammaBytes[i], betaBytes[i]);
      assert y == spec[i];
      PrefixSnoc(spec, i);
      outputs := outputs + [y];
    }
    assert spec[..DIM] == spec;
  }

  /** The body of the pass-3 loop for one index. */
  method NormElement(diff: int, invStd: int, gammaByte: int, betaByte: int) returns (y: int)
    ensures y == NormOutput(diff, invStd, gammaByte, betaByte)
  {
    var g := ToSigned8(gammaByte);
    var b := ToSigned8(betaByte);
    var fullProd := diff * invStd * g;
    WrapLiteral33(fullProd);
    fullProd := fullProd % 0x2_0000_0000;
    if fullProd >= 0x1_0000_0000 {
      fullProd := fullProd - 0x2_0000_0000;
    }
    var biased := (fullProd + 16384) / 32768 + b;
    WrapLiteral18(biased);
    biased := biased % 0x4_0000;
    if biased >= 0x2_0000 {
      biased := biased - 0x4_0000;
    }
    y := if biased > 127 then 127 else if biased < -128 then -128 else biased;
  }

  /** The 33-bit wrap written with the literal mask of the source. */
  lemma WrapLiteral33(v: int)
    ensures WrapSigned(v, 33)
      == if v % 0x2_0000_0000 >= 0x1_0000_0000 then v % 0x2_0000_0000 - 0x2_0000_0000 else v % 0x2_0000_0000
  {
    Pow2Values();
    assert Pow2(32) == 0x1_0000_0000;
  }

  /** The 18-bit wrap written with the literal mask of the source. */
  lemma WrapLiteral18(v: int)
    ensures WrapSigned(v, 18)
      == if v % 0x4_0000 >= 0x2_0000 then v % 0x4_0000 - 0x4_0000 else v % 0x4_0000
  {
    Pow2Values();
  }

  // ---------------------------------------------------------------------
  // Properties
  // ---------------------------------------------------------------------

  /** `mean = total >> 7` brackets the total: 128 mean <= total < 128 mean + 128. */
  lemma MeanBrackets(inputs: seq<int>)
    ensures 128 * Mean(inputs) <= Sum(inputs) < 128 * Mean(inputs) + 128
  {
  }

  /** The variance input of the square root is the floor of var_acc / 128. */
  lemma IsqrtInputBrackets(inputs: seq<int>)
    ensures 128 * IsqrtInput(inputs) <= VarAcc(inputs) < 128 * IsqrtInput(inputs) + 128
  {
  }

  /** The two wraps of pass 3 are the identity on values that fit their widths. */
  lemma PassThreeWrapsExact(fullValue: int, biasedValue: int)
    requires -0x1_0000_0000 <= fullValue < 0x1_0000_0000
    requires -0x2_0000 <= biasedValue < 0x2_0000
    ensures WrapSigned(fullValue, 33) == fullValue
    ensures WrapSigned(biasedValue, 18) == biasedValue
  {
    Pow2Values();
    WrapSignedId(fullValue, 33);
    WrapSignedId(biasedValue, 18);
  }

  /** The sum of n copies of c is n * c. */
  lemma {:induction false} SumConstant(xs: seq<int>, c: int)
    requires forall i :: 0 <= i < |xs| ==> xs[i] == c
    ensures Sum(xs) == |xs| * c
  {
    if xs != [] {
      SumConstant(xs[..|xs| - 1], c);
    }
  }

  /** A sum of squares of zeros is zero. */
  lemma {:induction false} SumSquaresZero(ds: seq<int>)
    requires forall i :: 0 <= i < |ds| ==> ds[i] == 0
    ensures SumSquares(ds) == 0
  {
    if ds != [] {
      SumSquaresZero(ds[..|ds| - 1]);
    }
  }

  /** With a zero centred value and inv_std = 0xFFFF only beta is left. */
  lemma NormOutputOfZero(gammaByte: int, betaByte: int)
    requires 0 <= betaByte < 256
    ensures NormOutput(0, ZERO_RESULT, gammaByte, betaByte) == ToSigned8(betaByte)
  {
    Pow2Values();
    WrapSignedId(0, 33);
    assert FullProd(0, ZERO_RESULT, gammaByte) == 0;
    WrapSignedId(ToSigned8(betaByte), 18);
  }

  /**
   * Constant input (the validator's all-42 test): the mean is the constant,
   * every centred value is 0, the variance is 0 so inv_std is the 0xFFFF
   * sentinel, and output i is beta byte i read as int8.
   */
  lemma ConstantInput(inputs: seq<int>, c: int, gammaBytes: seq<int>, betaBytes: seq<int>, isqrtLut: seq<int>)
    requires |inputs| == DIM && |gammaBytes| >= DIM && |betaBytes| >= DIM
    requires forall i :: 0 <= i < DIM ==> inputs[i] == c
    requires forall i :: 0 <= i < DIM ==> 0 <= betaBytes[i] < 256
    ensures Mean(inputs) == c
    ensures forall i :: 0 <= i < DIM ==> Centered(inputs)[i] == 0
    ensures VarAcc(inputs) == 0 && IsqrtInput(inputs) == 0
    ensures ValidArgs(inputs, gammaBytes, betaBytes, isqrtLut)
    ensures InvStd(inputs, isqrtLut) == ZERO_RESULT
    ensures forall i :: 0 <= i < DIM ==>
      LayerNormSpec(inputs, gammaBytes, betaBytes, isqrtLut)[i] == ToSigned8(betaBytes[i])
  {
    SumConstant(inputs, c);
    assert Sum(inputs) == 128 * c;
    SumSquaresZero(Centered(inputs));
    forall i | 0 <= i < DIM
      ensures LayerNormSpec(inputs, gammaBytes, betaBytes, isqrtLut)[i] == ToSigned8(betaBytes[i])
    {
      NormOutputOfZero(gammaBytes[i], betaBytes[i]);
    }
  }
}
