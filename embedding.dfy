/**
 * The token-plus-position embedding of the hardware (golden_byte in
 * validate_embedding.py): the two signed int8 weights are added in a 9-bit
 * register and bits [8:1] of the sum are the output byte, that is the floor of
 * their mean.
 */
module Embedding {
  import opened Wrappers
  import opened FixedPoint

  /** Width of one embedding row. */
  const DIM: int := 128

  /** golden_byte: `((t + p) & 0x1FF) >> 1 & 0xFF` on the signed weights. */
  function GoldenByte(tUnsigned: int, pUnsigned: int): (r: int)
    ensures 0 <= r < 256
  {
    ((ToSigned8(tUnsigned) + ToSigned8(pUnsigned)) % 0x200 / 2) % 0x100
  }

  /** `tok * DIM + i`: the address of feature i of row `row`. */
  function RowAddr(row: nat, i: nat): nat
  {
    row * DIM + i
  }

  /**
   * The expected output row for one test: golden_byte over feature i of
   * token row `tok` and position row `pos`; None when either row runs past
   * its table (the IndexError of the validator).
   */
  function ExpectedRow(tokMem: seq<Byte>, posMem: seq<Byte>, tok: nat, pos: nat): (r: Option<seq<int>>)
    ensures r.Some? <==> RowAddr(tok, DIM) <= |tokMem| && RowAddr(pos, DIM) <= |posMem|
    ensures r.Some? ==> |r.value| == DIM
  {
    if RowAddr(tok, DIM) <= |tokMem| && RowAddr(pos, DIM) <= |posMem| then
      Some(seq(DIM, i requires 0 <= i < DIM => GoldenByte(tokMem[RowAddr(tok, i)], posMem[RowAddr(pos, i)])))
    else
      None
  }

  // ---------------------------------------------------------------------
  // Properties
  // ---------------------------------------------------------------------

  /** The sum of two int8 values fits the 9-bit register's signed range. */
  lemma NineBitSum(t: int, p: int)
    requires 0 <= t < 256 && 0 <= p < 256
    ensures -256 <= ToSigned8(t) + ToSigned8(p) <= 254
  {
  }

  /** A negative 9-bit sum wraps by 512, and halving it moves it by 256. */
  lemma HalfOfWrapped(s: int)
    requires -256 <= s < 0
    ensures s % 0x200 == s + 512
    ensures (s + 512) / 2 == s / 2 + 256
    ensures 128 <= s / 2 + 256 < 256
  {
    DivModUnique(s, 0x200, -1, s + 512);
  }

  /**
   * Bits [8:1] of the 9-bit sum are the arithmetic shift of the sum: read as
   * int8 the output is floor((t + p) / 2) of the signed weights.
   */
  lemma GoldenByteIsMean(tUnsigned: int, pUnsigned: int)
    requires 0 <= tUnsigned < 256 && 0 <= pUnsigned < 256
    ensures ToSigned8(GoldenByte(tUnsigned, pUnsigned)) == (ToSigned8(tUnsigned) + ToSigned8(pUnsigned)) / 2
    ensures GoldenByte(tUnsigned, pUnsigned) == ((ToSigned8(tUnsigned) + ToSigned8(pUnsigned)) / 2) % 256
  {
    var s := ToSigned8(tUnsigned) + ToSigned8(pUnsigned);
    NineBitSum(tUnsigned, pUnsigned);
    if s < 0 {
      HalfOfWrapped(s);
      DivModUnique(s / 2, 256, -1, s / 2 + 256);
    } else {
      DivModUnique(s, 0x200, 0, s);
    }
  }

  /** The average is the same whichever way round the two weights come. */
  lemma GoldenByteSymmetric(tUnsigned: int, pUnsigned: int)
    requires 0 <= tUnsigned < 256 && 0 <= pUnsigned < 256
    ensures GoldenByte(tUnsigned, pUnsigned) == GoldenByte(pUnsigned, tUnsigned)
  {
  }

  /** The average of a byte with itself is that byte. */
  lemma GoldenByteIdempotent(b: int)
    requires 0 <= b < 256
    ensures GoldenByte(b, b) == b
  {
    GoldenByteIsMean(b, b);
    assert (ToSigned8(b) + ToSigned8(b)) / 2 == ToSigned8(b);
    ToSigned8Bijection(b);
  }

  /** The signed output lies between the two signed weights. */
  lemma GoldenByteBetween(tUnsigned: int, pUnsigned: int)
    requires 0 <= tUnsigned < 256 && 0 <= pUnsigned < 256
    ensures var t, p, o := ToSigned8(tUnsigned), ToSigned8(pUnsigned), ToSigned8(GoldenByte(tUnsigned, pUnsigned));
      (t <= o <= p) || (p <= o <= t)
  {
    GoldenByteIsMean(tUnsigned, pUnsigned);
  }

  /** Feature i of row `row` lies inside that row and addresses are decoded back uniquely. */
  lemma RowAddrLayout(row: nat, i: nat)
    requires i < DIM
    ensures row * DIM <= RowAddr(row, i) < (row + 1) * DIM
    ensures RowAddr(row, i) / DIM == row && RowAddr(row, i) % DIM == i
  {
    DivModUnique(RowAddr(row, i), DIM, row, i);
  }

  /** Distinct (row, feature) pairs address distinct weights. */
  lemma RowAddrInjective(row1: nat, i1: nat, row2: nat, i2: nat)
    requires i1 < DIM && i2 < DIM
    requires row1 != row2 || i1 != i2
    ensures RowAddr(row1, i1) != RowAddr(row2, i2)
  {
    RowAddrLayout(row1, i1);
    RowAddrLayout(row2, i2);
  }

  /** Entry i of an expected row is the average of entry i of the two rows. */
  lemma ExpectedRowEntry(tokMem: seq<Byte>, posMem: seq<Byte>, tok: nat, pos: nat, i: nat)
    requires RowAddr(tok, DIM) <= |tokMem| && RowAddr(pos, DIM) <= |posMem| && i < DIM
    ensures RowAddr(tok, i) < |tokMem| && RowAddr(pos, i) < |posMem|
    ensures ToSigned8(ExpectedRow(tokMem, posMem, tok, pos).value[i])
      == (ToSigned8(tokMem[RowAddr(tok, i)]) + ToSigned8(posMem[RowAddr(pos, i)])) / 2
  {
    GoldenByteIsMean(tokMem[RowAddr(tok, i)], posMem[RowAddr(pos, i)]);
  }
}
