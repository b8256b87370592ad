/**
 * The 24-bit accumulating matrix-vector product of the hardware (golden_matvec
 * in validate_matvec.py), for the test bench's all-ones input vector: each of
 * the 128 outputs is the int8 row sum of a 128 x 128 int8 weight matrix,
 * accumulated with 24-bit signed wrap-around, shifted right by 7 and
 * saturated to int8.
 */
module Matvec {
  import opened Wrappers
  import opened FixedPoint
  import opened SeqFacts
  import opened WeightFormat

  /** Rows and columns of the weight matrix. */
  const N: int := 128

  /**
   * mask24: the 24-bit two's-complement wrap of a Verilog `reg signed [23:0]`.
   * It keeps the value modulo 2^24 and is the identity on 24-bit values.
   */
  function Mask24(v: int): (r: int)
    ensures -0x80_0000 <= r < 0x80_0000
    ensures r % 0x100_0000 == v % 0x100_0000
    ensures -0x80_0000 <= v < 0x80_0000 ==> r == v
  {
    if v % 0x100_0000 >= 0x80_0000 then v % 0x100_0000 - 0x100_0000 else v % 0x100_0000
  }

  /** mask24 is the generic signed wrap at width 24. */
  lemma Mask24IsWrap(v: int)
    ensures Mask24(v) == WrapSigned(v, 24)
  {
    Pow2Values();
  }

  /** The accumulator of one row after its first `n` columns. */
  function RowAcc(raw: seq<Byte>, row: int, n: nat): int
    requires 0 <= row < N && n <= N && |raw| >= N * N
  {
    if n == 0 then 0
    else Mask24(RowAcc(raw, row, n - 1) + ToSigned8(raw[row * N + n - 1]))
  }

  /** One output: `clamp8(acc >> 7)`. */
  function OutAt(raw: seq<Byte>, row: int): int
    requires 0 <= row < N && |raw| >= N * N
  {
    ClampInt8(Asr(RowAcc(raw, row, N), 7))
  }

  /** golden_matvec as a function of the weight bytes. */
  function MatvecSpec(raw: seq<Byte>): (out: seq<int>)
    requires |raw| >= N * N
    ensures |out| == N
    ensures forall r :: 0 <= r < N ==> -128 <= out[r] <= 127
  {
    seq(N, r requires 0 <= r < N => OutAt(raw, r))
  }

  /** golden_matvec: a row loop around a column loop accumulating with mask24. */
  method GoldenMatvec(raw: seq<Byte>) returns (out: seq<int>)
    requires |raw| >= N * N
    ensures out == MatvecSpec(raw)
  {
    ghost var spec := MatvecSpec(raw);
    out := [];
    for row := 0 to N
      invariant out == spec[..row]
    {
      var acc := 0;
      for col := 0 to N
        invariant acc == RowAcc(raw, row, col)
      {
        acc := Mask24(acc + ToSigned8(raw[row * N + col]));
      }
      var y := ClampInt8(Asr(acc, 7));
      assert y == spec[row];
      PrefixSnoc(spec, row);
      out := out + [y];
    }
    assert spec[..N] == spec;
  }

  // ---------------------------------------------------------------------
  // Properties
  // ---------------------------------------------------------------------

  /** The exact int8 sum of the first `n` weights of a row. */
  function RowSum(raw: seq<Byte>, row: int, n: nat): int
    requires 0 <= row < N && n <= N && |raw| >= N * N
  {
    if n == 0 then 0 else RowSum(raw, row, n - 1) + ToSigned8(raw[row * N + n - 1])
  }

  /**
   * The accumulator never wraps: after n columns it lies in [-128 n, 127 n]
   * (at most [-16384, 16256]) and equals the exact signed row sum.
   */
  lemma {:induction false} RowAccExact(raw: seq<Byte>, row: int, n: nat)
    requires 0 <= row < N && n <= N && |raw| >= N * N
    ensures RowAcc(raw, row, n) == RowSum(raw, row, n)
    ensures -128 * n <= RowSum(raw, row, n) <= 127 * n
  {
    if n > 0 {
      RowAccExact(raw, row, n - 1);
    }
  }

  /** Each output is floor(row sum / 128), already in int8 range, so the clamp is a no-op. */
  lemma OutputIsRowSumShifted(raw: seq<Byte>, row: int)
    requires 0 <= row < N && |raw| >= N * N
    ensures -16384 <= RowSum(raw, row, N) <= 16256
    ensures -128 <= RowSum(raw, row, N) / 128 <= 127
    ensures MatvecSpec(raw)[row] == RowSum(raw, row, N) / 128
  {
    RowAccExact(raw, row, N);
    AsrIsDiv(RowSum(raw, row, N), 7);
    Pow2Values();
  }

  /** The accumulator after `n` columns reads only that row's first `n` bytes. */
  lemma {:induction false} RowAccLocal(raw1: seq<Byte>, raw2: seq<Byte>, row: int, n: nat)
    requires 0 <= row < N && n <= N && |raw1| >= N * N && |raw2| >= N * N
    requires raw1[row * N .. row * N + n] == raw2[row * N .. row * N + n]
    ensures RowAcc(raw1, row, n) == RowAcc(raw2, row, n)
  {
    if n > 0 {
      var a := row * N;
      assert raw1[a .. a + n - 1] == raw1[a .. a + n][..n - 1];
      assert raw2[a .. a + n - 1] == raw2[a .. a + n][..n - 1];
      assert raw1[a + n - 1] == raw1[a .. a + n][n - 1];
      assert raw2[a + n - 1] == raw2[a .. a + n][n - 1];
      RowAccLocal(raw1, raw2, row, n - 1);
    }
  }

  /** Output r depends on nothing but raw[r*128 .. r*128+127]. */
  lemma OutputReadsOwnRow(raw1: seq<Byte>, raw2: seq<Byte>, row: int)
    requires 0 <= row < N && |raw1| >= N * N && |raw2| >= N * N
    requires raw1[row * N .. row * N + N] == raw2[row * N .. row * N + N]
    ensures MatvecSpec(raw1)[row] == MatvecSpec(raw2)[row]
  {
    RowAccLocal(raw1, raw2, row, N);
  }

  // ---------------------------------------------------------------------
  // Picking the matrix out of the container
  // ---------------------------------------------------------------------

  /** The ASCII bytes of `blocks.0.attn.proj.weight`, the matrix the test bench holds. */
  const PROJ_WEIGHT: seq<Byte> := [
    0x62, 0x6c, 0x6f, 0x63, 0x6b, 0x73, 0x2e, 0x30, 0x2e, 0x61, 0x74, 0x74, 0x6e,
    0x2e, 0x70, 0x72, 0x6f, 0x6a, 0x2e, 0x77, 0x65, 0x69, 0x67, 0x68, 0x74]

  /**
   * `next(t for t in tensors if t["name"] == name)`: the position of the
   * first tensor of that name; None where `next` raises StopIteration.
   */
  function FirstNamed(recs: seq<Record>, name: seq<Byte>): (r: Option<nat>)
    ensures r.Some? ==> r.value < |recs| && recs[r.value].name == name
    ensures r.Some? ==> forall j :: 0 <= j < r.value ==> recs[j].name != name
    ensures r.None? ==> forall j :: 0 <= j < |recs| ==> recs[j].name != name
  {
    if recs == [] then None
    else if recs[0].name == name then Some(0)
    else
      match FirstNamed(recs[1..], name)
      case None => None
      case Some(i) => Some(i + 1)
  }

  /** The search finds exactly the first tensor of the name. */
  lemma FirstNamedIsFirst(recs: seq<Record>, name: seq<Byte>, i: nat)
    requires i < |recs| && recs[i].name == name
    requires forall j :: 0 <= j < i ==> recs[j].name != name
    ensures FirstNamed(recs, name) == Some(i)
  {
    var r := FirstNamed(recs, name);
    assert r.Some?;
    assert !(r.value < i) && !(i < r.value);
  }

  /**
   * golden_matvec over the tensor list: None when the matrix is missing
   * (StopIteration) or holds fewer than 128 x 128 bytes (IndexError).
   */
  function MatvecOfTensors(recs: seq<Record>): (out: Option<seq<int>>)
  {
    match FirstNamed(recs, PROJ_WEIGHT)
    case None => None
    case Some(i) => if |recs[i].data| >= N * N then Some(MatvecSpec(recs[i].data)) else None
  }

  /** golden_matvec: the search, then the row and column loops. */
  method GoldenMatvecOfTensors(recs: seq<Record>) returns (out: Option<seq<int>>)
    ensures out == MatvecOfTensors(recs)
  {
    var i := FirstNamed(recs, PROJ_WEIGHT);
    if i.None? || |recs[i.value].data| < N * N {
      return None;
    }
    var o := GoldenMatvec(recs[i.value].data);
    return Some(o);
  }

  /**
   * For the first tensor of that name holding the 128 x 128 matrix, the
   * reference is the matrix product of its bytes; without such a tensor there
   * is none.
   */
  lemma MatvecOfTensorsPicks(recs: seq<Record>, i: nat)
    requires i < |recs| && recs[i].name == PROJ_WEIGHT && |recs[i].data| == N * N
    requires forall j :: 0 <= j < i ==> recs[j].name != PROJ_WEIGHT
    ensures MatvecOfTensors(recs) == Some(MatvecSpec(recs[i].data))
  {
    FirstNamedIsFirst(recs, PROJ_WEIGHT, i);
  }

  lemma MatvecOfTensorsMissing(recs: seq<Record>)
    requires forall j :: 0 <= j < |recs| ==> recs[j].name != PROJ_WEIGHT
    ensures MatvecOfTensors(recs).None?
  {
  }
}
