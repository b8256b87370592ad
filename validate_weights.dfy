/**
 * validate_weights.py: the reference the weight-store test bench is checked
 * against. The container is read by the shared cursor loop (BinReader.ParseBin,
 * ASCII names); each tensor contributes its first and its last byte, and a
 * reading of address 0 is expected to show the first byte, any other address
 * the last one.
 */
module ValidateWeights {
  import opened Wrappers
  import opened FixedPoint
  import opened WeightFormat

  /** The pair `(t["data"][0], t["data"][-1])`. */
  datatype Ends = Ends(first: Byte, last: Byte)

  function EndsOf(data: seq<Byte>): Ends
    requires |data| > 0
  {
    Ends(data[0], data[|data| - 1])
  }

  predicate AllNonEmpty(recs: seq<Record>)
  {
    forall k :: 0 <= k < |recs| ==> |recs[k].data| > 0
  }

  /**
   * golden_weight_store: the dict comprehension `index -> (first, last)` in
   * list order, a later tensor of the same index replacing an earlier one;
   * indexing the data of an empty tensor raises IndexError (None).
   */
  function GoldenWeightStore(recs: seq<Record>): (g: Option<map<nat, Ends>>)
    ensures g.Some? <==> AllNonEmpty(recs)
  {
    if recs == [] then Some(map[])
    else
      match GoldenWeightStore(recs[..|recs| - 1])
      case None => None
      case Some(m) =>
        if |recs[|recs| - 1].data| == 0 then None
        else Some(m[recs[|recs| - 1].index := EndsOf(recs[|recs| - 1].data)])
  }

  /**
   * For records numbered by position, as parse_bin returns them, the store has
   * one entry per tensor holding that tensor's first and last byte.
   */
  lemma {:induction false} StoreOfIndexed(recs: seq<Record>)
    requires AllNonEmpty(recs)
    requires forall k :: 0 <= k < |recs| ==> recs[k].index == k
    ensures GoldenWeightStore(recs).Some?
    ensures forall k: nat :: k in GoldenWeightStore(recs).value <==> k < |recs|
    ensures forall k :: 0 <= k < |recs| ==> GoldenWeightStore(recs).value[k] == EndsOf(recs[k].data)
    decreases |recs|
  {
    if recs != [] {
      var n := |recs| - 1;
      var init := recs[..n];
      assert forall k :: 0 <= k < n ==> init[k] == recs[k];
      StoreOfIndexed(init);
    }
  }

  /** The store of a container parse_bin accepts, as long as no tensor is empty. */
  lemma StoreOfContainer(buf: seq<Byte>)
    requires ParseContainer(buf, Ascii).Some? && AllNonEmpty(ParseContainer(buf, Ascii).value)
    ensures GoldenWeightStore(ParseContainer(buf, Ascii).value).Some?
    ensures forall k: nat :: k in GoldenWeightStore(ParseContainer(buf, Ascii).value).value <==> k < U32At(buf, 8)
    ensures forall k :: 0 <= k < U32At(buf, 8) ==>
      GoldenWeightStore(ParseContainer(buf, Ascii).value).value[k] == EndsOf(ParseContainer(buf, Ascii).value[k].data)
  {
    ContainerConsistent(buf, Ascii);
    StoreOfIndexed(ParseContainer(buf, Ascii).value);
  }

  /** A one-byte tensor reads the same at either end. */
  lemma SingleByteEnds(data: seq<Byte>)
    requires |data| == 1
    ensures EndsOf(data).first == EndsOf(data).last == data[0]
  {
  }

  /**
   * `expected = g_first if addr == 0 else g_last`, after `golden[idx]`, which
   * raises KeyError for an index the store lacks.
   */
  function ExpectedByte(golden: map<nat, Ends>, idx: nat, addr: nat): (r: Option<Byte>)
    ensures r.Some? <==> idx in golden
    ensures r.Some? && addr == 0 ==> r.value == golden[idx].first
    ensures r.Some? && addr != 0 ==> r.value == golden[idx].last
  {
    if idx !in golden then None
    else if addr == 0 then Some(golden[idx].first)
    else Some(golden[idx].last)
  }

  /**
   * Against the store of a file's tensors, address 0 of tensor idx expects
   * its first byte, every other address its last, and an index past the last
   * tensor has no expectation.
   */
  lemma ExpectedOfContainer(buf: seq<Byte>, idx: nat, addr: nat)
    requires ParseContainer(buf, Ascii).Some? && AllNonEmpty(ParseContainer(buf, Ascii).value)
    ensures ExpectedByte(GoldenWeightStore(ParseContainer(buf, Ascii).value).value, idx, addr).Some? <==>
      idx < |ParseContainer(buf, Ascii).value|
    ensures idx < |ParseContainer(buf, Ascii).value| ==>
      var data := ParseContainer(buf, Ascii).value[idx].data;
      ExpectedByte(GoldenWeightStore(ParseContainer(buf, Ascii).value).value, idx, addr)
        == Some(if addr == 0 then data[0] else data[|data| - 1])
  {
    StoreOfContainer(buf);
  }
}
