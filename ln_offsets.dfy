/**
 * The packed LayerNorm parameter memory (ln_params.hex): nine gamma/beta pairs
 * of 128 bytes, addressed by the tensor selector of the weight store through
 * the LN_OFFSETS table of validate_layernorm.py.
 */
module LnOffsets {
  /** Length of each gamma or beta slice. */
  const SLICE: int := 128

  /** Offset of each tensor selector's 128-byte slice in the packed parameter memory. */
  const LN_OFFSETS: map<int, int> := map[
    2 := 0, 3 := 128, 6 := 256, 7 := 384,
    10 := 512, 11 := 640, 14 := 768, 15 := 896,
    18 := 1024, 19 := 1152, 22 := 1280, 23 := 1408,
    26 := 1536, 27 := 1664, 30 := 1792, 31 := 1920,
    34 := 2048, 35 := 2176]

  /** Size of the packed parameter memory: nine gamma/beta pairs of SLICE bytes. */
  const LN_PARAMS_SIZE: int := 2304

  /** A gamma selector: its beta slice is the next selector. */
  predicate IsGammaKey(g: int)
  {
    g in LN_OFFSETS && g % 4 == 2
  }

  /**
   * The offsets follow one rule: selector 4q + 2 is gamma at 256 q and
   * selector 4q + 3 is beta at 256 q + 128, for q = 0 .. 8.
   */
  lemma OffsetRule()
    ensures forall s :: s in LN_OFFSETS ==>
      0 <= s / 4 <= 8 && (s % 4 == 2 || s % 4 == 3)
      && LN_OFFSETS[s] == 256 * (s / 4) + 128 * (s % 4 - 2)
    ensures forall q :: 0 <= q <= 8 ==> 4 * q + 2 in LN_OFFSETS && 4 * q + 3 in LN_OFFSETS
  {
  }

  /** There are 18 selectors. */
  lemma OffsetsCount()
    ensures |LN_OFFSETS.Keys| == 18
  {
    OffsetsKeys();
    SelectorCount();
  }

  lemma OffsetsKeys()
    ensures LN_OFFSETS.Keys == {2, 3, 6, 7, 10, 11, 14, 15, 18, 19, 22, 23, 26, 27, 30, 31, 34, 35}
  {
  }

  lemma SelectorCount()
    ensures |{2, 3, 6, 7, 10, 11, 14, 15, 18, 19, 22, 23, 26, 27, 30, 31, 34, 35}| == 18
  {
    LowSelectorCount();
    HighSelectorCount();
    SelectorHalves();
  }

  lemma LowSelectorCount()
    ensures |{2, 3, 6, 7, 10, 11, 14, 15, 18}| == 9
  {
  }

  lemma HighSelectorCount()
    ensures |{19, 22, 23, 26, 27, 30, 31, 34, 35}| == 9
  {
  }

  lemma SelectorHalves()
    ensures {2, 3, 6, 7, 10, 11, 14, 15, 18} !! {19, 22, 23, 26, 27, 30, 31, 34, 35}
    ensures {2, 3, 6, 7, 10, 11, 14, 15, 18} + {19, 22, 23, 26, 27, 30, 31, 34, 35}
      == {2, 3, 6, 7, 10, 11, 14, 15, 18, 19, 22, 23, 26, 27, 30, 31, 34, 35}
  {
  }

  /** Every offset is a multiple of 128 in [0, 2176]. */
  lemma OffsetsInRange()
    ensures forall s :: s in LN_OFFSETS ==>
      0 <= LN_OFFSETS[s] <= 2176 && LN_OFFSETS[s] % 128 == 0
  {
    OffsetRule();
    forall s | s in LN_OFFSETS
      ensures 0 <= LN_OFFSETS[s] <= 2176 && LN_OFFSETS[s] % 128 == 0
    {
      OffsetFormulaRange(s);
    }
  }

  /** No two selectors share an offset. */
  lemma OffsetsDistinct()
    ensures forall s, t :: s in LN_OFFSETS && t in LN_OFFSETS && s != t ==> LN_OFFSETS[s] != LN_OFFSETS[t]
  {
    OffsetRule();
    forall s, t | s in LN_OFFSETS && t in LN_OFFSETS && s != t
      ensures LN_OFFSETS[s] != LN_OFFSETS[t]
    {
      OffsetFormulaInjective(s, t);
    }
  }

  /** Every gamma selector g has its beta at selector g + 1, 128 bytes on. */
  lemma BetaFollowsGamma()
    ensures forall g :: IsGammaKey(g) ==> g + 1 in LN_OFFSETS && LN_OFFSETS[g + 1] == LN_OFFSETS[g] + 128
  {
    OffsetRule();
    forall g | IsGammaKey(g)
      ensures g + 1 in LN_OFFSETS && LN_OFFSETS[g + 1] == LN_OFFSETS[g] + 128
    {
      assert 4 * (g / 4) + 3 == g + 1;
    }
  }

  lemma OffsetFormulaRange(s: int)
    requires 0 <= s / 4 <= 8 && (s % 4 == 2 || s % 4 == 3)
    ensures 0 <= 256 * (s / 4) + 128 * (s % 4 - 2) <= 2176
    ensures (256 * (s / 4) + 128 * (s % 4 - 2)) % 128 == 0
  {
    var q, r := s / 4, s % 4 - 2;
    assert 256 * q + 128 * r == 128 * (2 * q + r);
  }

  lemma OffsetFormulaInjective(s: int, t: int)
    requires s % 4 == 2 || s % 4 == 3
    requires t % 4 == 2 || t % 4 == 3
    requires s != t
    ensures 256 * (s / 4) + 128 * (s % 4 - 2) != 256 * (t / 4) + 128 * (t % 4 - 2)
  {
    assert s == 4 * (s / 4) + s % 4 && t == 4 * (t / 4) + t % 4;
    if s / 4 == t / 4 {
      assert s % 4 != t % 4;
    } else {
      assert 256 * (s / 4) + 128 * (s % 4 - 2) - (256 * (t / 4) + 128 * (t % 4 - 2))
        == 128 * (2 * (s / 4 - t / 4) + (s % 4 - t % 4));
    }
  }

  /** Distinct selectors address disjoint 128-byte slices inside the 2304-byte memory. */
  lemma SlicesDisjoint(s: int, t: int, i: int, j: int)
    requires s in LN_OFFSETS && t in LN_OFFSETS && s != t
    requires 0 <= i < SLICE && 0 <= j < SLICE
    ensures 0 <= LN_OFFSETS[s] + i < LN_PARAMS_SIZE
    ensures LN_OFFSETS[s] + i != LN_OFFSETS[t] + j
  {
    OffsetRule();
  }
}
