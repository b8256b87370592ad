/**
 * The GELU of the hardware (validate_gelu.py): a 1024-entry table holding
 * 256 output bytes for each of the four layers; the expected output for an
 * input byte of a layer is the entry at `layer * 256 + in_byte`.
 */
module Gelu {
  import opened Wrappers
  import opened FixedPoint

  /** The number of transformer layers with a GELU table. */
  const N_LAYERS: nat := 4

  /** Entries of the whole table. */
  const LUT_SIZE: nat := 1024

  /** `layer * 256 + in_byte`. */
  function GeluAddr(layer: nat, inByte: nat): nat
  {
    layer * 256 + inByte
  }

  /** The expected output byte; None when the table is too short (IndexError). */
  function GoldenGelu(lut: seq<int>, layer: nat, inByte: nat): (r: Option<int>)
    ensures r.Some? <==> GeluAddr(layer, inByte) < |lut|
    ensures r.Some? ==> r.value == lut[GeluAddr(layer, inByte)]
  {
    if GeluAddr(layer, inByte) < |lut| then Some(lut[GeluAddr(layer, inByte)]) else None
  }

  // ---------------------------------------------------------------------
  // Properties
  // ---------------------------------------------------------------------

  /** Each layer owns its own 256-entry block: the address splits back into layer and byte. */
  lemma GeluAddrLayout(layer: nat, inByte: nat)
    requires layer < N_LAYERS && inByte < 256
    ensures GeluAddr(layer, inByte) < LUT_SIZE
    ensures GeluAddr(layer, inByte) / 256 == layer && GeluAddr(layer, inByte) % 256 == inByte
  {
    DivModUnique(GeluAddr(layer, inByte), 256, layer, inByte);
  }

  /** Distinct (layer, in_byte) pairs read distinct entries. */
  lemma GeluAddrInjective(layer1: nat, in1: nat, layer2: nat, in2: nat)
    requires layer1 < N_LAYERS && in1 < 256 && layer2 < N_LAYERS && in2 < 256
    requires layer1 != layer2 || in1 != in2
    ensures GeluAddr(layer1, in1) != GeluAddr(layer2, in2)
  {
    GeluAddrLayout(layer1, in1);
    GeluAddrLayout(layer2, in2);
  }

  /** With the full table every expected output exists; it depends on that one entry only. */
  lemma GoldenGeluReadsOneEntry(lut1: seq<int>, lut2: seq<int>, layer: nat, inByte: nat)
    requires layer < N_LAYERS && inByte < 256
    requires |lut1| == LUT_SIZE && |lut2| == LUT_SIZE
    requires lut1[GeluAddr(layer, inByte)] == lut2[GeluAddr(layer, inByte)]
    ensures GoldenGelu(lut1, layer, inByte).Some?
    ensures GoldenGelu(lut1, layer, inByte) == GoldenGelu(lut2, layer, inByte)
  {
    GeluAddrLayout(layer, inByte);
  }
}
