/**
 * The container side of train.py: export_weights_int8 writing the file as a
 * sequence of appends, load_weights_int8 reading it back into a dictionary
 * keyed by name, and the ByteDataset windows used for training.
 */
module Train {
  import opened Wrappers
  import opened FixedPoint
  import opened WeightFormat
  import opened BinReader

  // ---------------------------------------------------------------------
  // export_weights_int8
  // ---------------------------------------------------------------------

  /** export_weights_int8: the magic, the count, then each record field by field. */
  method ExportWeightsInt8(tensors: seq<Tensor>) returns (out: seq<Byte>)
    requires AllExportable(tensors)
    ensures out == Serialize(tensors)
  {
    out := MAGIC;
    out := out + U32Bytes(|tensors|);
    out := WriteRecords(out, tensors);
    assert out == MAGIC + (U32Bytes(|tensors|) + RecordsBytes(tensors));
  }

  /** `for name, t in tensors.items(): ...`, one record per tensor in order. */
  method WriteRecords(before: seq<Byte>, tensors: seq<Tensor>) returns (out: seq<Byte>)
    requires forall j :: 0 <= j < |tensors| ==> Exportable(tensors[j])
    ensures out == before + RecordsBytes(tensors)
  {
    out := before;
    for k := 0 to |tensors|
      invariant out == before + RecordsBytes(tensors[..k])
    {
      var written := WriteRecord(out, tensors[k]);
      RecordsWritten(before, out, tensors, k);
      out := written;
    }
    assert tensors[..|tensors|] == tensors;
  }

  /** One iteration of the export loop: the record's fields appended in order. */
  method WriteRecord(before: seq<Byte>, t: Tensor) returns (out: seq<Byte>)
    requires Exportable(t)
    ensures out == before + RecordBytes(t)
  {
    var tail := WriteTail([], t);
    out := before + U32Bytes(|t.name|);
    out := out + t.name;
    out := out + tail;
    assert tail == RecordTail(t);
    assert out == before + (U32Bytes(|t.name|) + (t.name + RecordTail(t)));
  }

  /** The fields after the name: ndim, each dimension, the scale, the data. */
  method WriteTail(before: seq<Byte>, t: Tensor) returns (out: seq<Byte>)
    requires Exportable(t)
    ensures out == before + RecordTail(t)
  {
    var dims := WriteDims([], t.shape);
    out := before + U32Bytes(|t.shape|);
    out := out + dims;
    out := out + U32Bytes(t.scaleBits);
    out := out + t.data;
    assert out == before + (U32Bytes(|t.shape|) + (DimsBytes(t.shape) + (U32Bytes(t.scaleBits) + t.data)));
  }

  /** `for s in q.shape: f.write(struct.pack("<I", s))`. */
  method WriteDims(before: seq<Byte>, shape: seq<nat>) returns (out: seq<Byte>)
    requires forall k :: 0 <= k < |shape| ==> shape[k] < U32_LIMIT
    ensures out == before + DimsBytes(shape)
  {
    out := before;
    for s := 0 to |shape|
      invariant out == before + DimsBytes(shape[..s])
    {
      DimsBytesSnoc(shape, s);
      out := out + U32Bytes(shape[s]);
    }
    assert shape[..|shape|] == shape;
  }

  /** Appending record k to what the first k records produced gives the first k + 1. */
  lemma RecordsWritten(before: seq<Byte>, out: seq<Byte>, ts: seq<Tensor>, k: nat)
    requires k < |ts| && forall j :: 0 <= j < |ts| ==> Exportable(ts[j])
    requires out == before + RecordsBytes(ts[..k])
    ensures out + RecordBytes(ts[k]) == before + RecordsBytes(ts[..k + 1])
  {
    RecordsBytesSnoc(ts, k);
    SeqAssoc(before, RecordsBytes(ts[..k]), RecordBytes(ts[k]));
  }

  lemma SeqAssoc(a: seq<Byte>, b: seq<Byte>, c: seq<Byte>)
    ensures (a + b) + c == a + (b + c)
  {
  }

  lemma {:induction false} RecordsBytesAppend(a: seq<Tensor>, b: seq<Tensor>)
    requires forall j :: 0 <= j < |a| ==> Exportable(a[j])
    requires forall j :: 0 <= j < |b| ==> Exportable(b[j])
    ensures RecordsBytes(a + b) == RecordsBytes(a) + RecordsBytes(b)
    decreases |a|
  {
    if a == [] {
      assert a + b == b;
    } else {
      assert (a + b)[1..] == a[1..] + b;
      RecordsBytesAppend(a[1..], b);
    }
  }

  lemma RecordsBytesSnoc(ts: seq<Tensor>, k: nat)
    requires k < |ts| && forall j :: 0 <= j < |ts| ==> Exportable(ts[j])
    ensures RecordsBytes(ts[..k + 1]) == RecordsBytes(ts[..k]) + RecordBytes(ts[k])
  {
    assert ts[..k + 1] == ts[..k] + [ts[k]];
    RecordsBytesAppend(ts[..k], [ts[k]]);
    assert [ts[k]][1..] == [];
  }

  lemma {:induction false} DimsBytesAppend(a: seq<nat>, b: seq<nat>)
    requires forall j :: 0 <= j < |a| ==> a[j] < U32_LIMIT
    requires forall j :: 0 <= j < |b| ==> b[j] < U32_LIMIT
    ensures DimsBytes(a + b) == DimsBytes(a) + DimsBytes(b)
    decreases |a|
  {
    if a == [] {
      assert a + b == b;
    } else {
      assert (a + b)[1..] == a[1..] + b;
      DimsBytesAppend(a[1..], b);
    }
  }

  lemma DimsBytesSnoc(shape: seq<nat>, s: nat)
    requires s < |shape| && forall j :: 0 <= j < |shape| ==> shape[j] < U32_LIMIT
    ensures DimsBytes(shape[..s + 1]) == DimsBytes(shape[..s]) + U32Bytes(shape[s])
  {
    assert shape[..s + 1] == shape[..s] + [shape[s]];
    DimsBytesAppend(shape[..s], [shape[s]]);
    assert [shape[s]][1..] == [];
  }

  // ---------------------------------------------------------------------
  // load_weights_int8
  // ---------------------------------------------------------------------

  /**
   * A dictionary value: `torch.tensor(data * scale).reshape(shape)`, kept as
   * the shape, the scale's bits and the int8 bytes it is computed from.
   */
  datatype Stored = Stored(shape: seq<nat>, scaleBits: nat, data: seq<Byte>)

  function StoredOf(rec: Record): Stored
  {
    Stored(rec.shape, rec.scaleHex, rec.data)
  }

  /** `tensors[name] = ...` for each record in file order. */
  function ToDict(recs: seq<Record>): map<seq<Byte>, Stored>
  {
    if recs == [] then map[]
    else ToDict(recs[..|recs| - 1])[recs[|recs| - 1].name := StoredOf(recs[|recs| - 1])]
  }

  /** load_weights_int8 as a function of the file's bytes. */
  function LoadWeightsSpec(buf: seq<Byte>): Option<map<seq<Byte>, Stored>>
  {
    if ParseContainer(buf, Utf8).None? then None else Some(ToDict(ParseContainer(buf, Utf8).value))
  }

  /** load_weights_int8: the magic assertion, the count, then one dictionary entry per record. */
  method LoadWeightsInt8(buf: seq<Byte>) returns (tensors: Option<map<seq<Byte>, Stored>>)
    ensures tensors == LoadWeightsSpec(buf)
  {
    var magic := buf[..Min(8, |buf|)];
    if magic != MAGIC {
      return None;
    }
    if |buf| < HEADER_SIZE {
      return None;
    }
    var nTensors := U32At(buf, 8);
    ContainerOfRecords(buf, Utf8);
    var pos: nat := HEADER_SIZE;
    var dict: map<seq<Byte>, Stored> := map[];
    ghost var read: seq<Record> := [];
    PrependNothing(ParseRecords(buf, pos, 0, nTensors, Utf8));
    for i := 0 to nTensors
      invariant pos <= |buf|
      invariant ParseContainer(buf, Utf8) == PrependAll(read, ParseRecords(buf, pos, i, nTensors, Utf8))
      invariant dict == ToDict(read)
    {
      var rec, next := ReadRecord(buf, pos, i, Utf8);
      if rec.None? {
        return None;
      }
      ParseRecordsStep(buf, pos, i, nTensors, Utf8);
      PrependAllTwice(read, [rec.value], ParseRecords(buf, next, i + 1, nTensors, Utf8));
      ToDictSnoc(read, rec.value);
      dict := dict[rec.value.name := StoredOf(rec.value)];
      read := read + [rec.value];
      pos := next;
    }
    assert read + [] == read;
    return Some(dict);
  }

  lemma ToDictSnoc(recs: seq<Record>, r: Record)
    ensures ToDict(recs + [r]) == ToDict(recs)[r.name := StoredOf(r)]
  {
    assert (recs + [r])[..|recs|] == recs;
  }

  /** The keys are exactly the names in the file. */
  lemma {:induction false} ToDictKeys(recs: seq<Record>)
    ensures ToDict(recs).Keys == set k | 0 <= k < |recs| :: recs[k].name
    decreases |recs|
  {
    if recs != [] {
      var init := recs[..|recs| - 1];
      ToDictKeys(init);
      assert forall k :: 0 <= k < |init| ==> init[k] == recs[k];
    }
  }

  /** A name's entry is its last record: later tensors of the same name overwrite earlier ones. */
  lemma {:induction false} ToDictLastWins(recs: seq<Record>, k: nat)
    requires k < |recs|
    requires forall j :: k < j < |recs| ==> recs[j].name != recs[k].name
    ensures recs[k].name in ToDict(recs)
    ensures ToDict(recs)[recs[k].name] == StoredOf(recs[k])
    decreases |recs|
  {
    if k < |recs| - 1 {
      var init := recs[..|recs| - 1];
      assert forall j :: k < j < |init| ==> init[j] == recs[j];
      ToDictLastWins(init, k);
    }
  }

  /**
   * Round trip: loading what export_weights_int8 wrote gives every tensor back
   * under its name, when the names are distinct (they are parameter names)
   * and valid UTF-8 (they come from `str.encode("utf-8")`).
   */
  lemma LoadOfExport(ts: seq<Tensor>)
    requires AllExportable(ts)
    requires forall k :: 0 <= k < |ts| ==> Utf8Valid(ts[k].name)
    requires forall j, k :: 0 <= j < k < |ts| ==> ts[j].name != ts[k].name
    ensures LoadWeightsSpec(Serialize(ts)).Some?
    ensures LoadWeightsSpec(Serialize(ts)).value.Keys == set k | 0 <= k < |ts| :: ts[k].name
    ensures forall k :: 0 <= k < |ts| ==>
      LoadWeightsSpec(Serialize(ts)).value[ts[k].name] == Stored(ts[k].shape, ts[k].scaleBits, ts[k].data)
  {
    assert Serialize(ts) + [] == Serialize(ts);
    ParseOfSerialize(ts, [], Utf8);
    assert LoadWeightsSpec(Serialize(ts)) == Some(ToDict(Indexed(ts, 0)));
    IndexedDictKeys(ts);
    IndexedDictValues(ts);
  }

  lemma IndexedDictKeys(ts: seq<Tensor>)
    ensures ToDict(Indexed(ts, 0)).Keys == set k | 0 <= k < |ts| :: ts[k].name
  {
    var recs := Indexed(ts, 0);
    ToDictKeys(recs);
    assert (set k | 0 <= k < |recs| :: recs[k].name) == (set k | 0 <= k < |ts| :: ts[k].name);
  }

  lemma IndexedDictValues(ts: seq<Tensor>)
    requires forall j, k :: 0 <= j < k < |ts| ==> ts[j].name != ts[k].name
    ensures forall k :: 0 <= k < |ts| ==> ts[k].name in ToDict(Indexed(ts, 0))
    ensures forall k :: 0 <= k < |ts| ==>
      ToDict(Indexed(ts, 0))[ts[k].name] == Stored(ts[k].shape, ts[k].scaleBits, ts[k].data)
  {
    var recs := Indexed(ts, 0);
    forall k | 0 <= k < |ts|
      ensures ts[k].name in ToDict(recs)
      ensures ToDict(recs)[ts[k].name] == Stored(ts[k].shape, ts[k].scaleBits, ts[k].data)
    {
      ToDictLastWins(recs, k);
    }
  }

  /** A file whose first eight bytes are not "TFPGA001" is refused. */
  lemma LoadRejectsBadMagic(buf: seq<Byte>)
    requires |buf| < 8 || buf[..8] != MAGIC
    ensures LoadWeightsSpec(buf).None?
  {
  }

  // ---------------------------------------------------------------------
  // ByteDataset
  // ---------------------------------------------------------------------

  /** The training corpus as bytes and the context length. */
  datatype ByteDataset = ByteDataset(data: seq<Byte>, ctx: nat)

  /** `len(data) - ctx`. */
  function Len(d: ByteDataset): int
  {
    |d.data| - d.ctx
  }

  /** Python's clamped slice `data[a:b]` for non-negative bounds. */
  function Slice(s: seq<Byte>, a: nat, b: nat): (r: seq<Byte>)
    ensures |r| <= |s|
  {
    if a >= |s| || b <= a then [] else s[a..if b <= |s| then b else |s|]
  }

  /** `(data[i:i+ctx], data[i+1:i+ctx+1])`: an input window and the window shifted by one. */
  function GetItem(d: ByteDataset, i: nat): (xy: (seq<Byte>, seq<Byte>))
  {
    (Slice(d.data, i, i + d.ctx), Slice(d.data, i + 1, i + d.ctx + 1))
  }

  /**
   * For every index below the length, both windows are ctx bytes long, the
   * target is the input shifted by one, and the last target byte is the first
   * byte past the input window.
   */
  lemma GetItemWindows(d: ByteDataset, i: nat)
    requires i < Len(d)
    ensures |GetItem(d, i).0| == d.ctx && |GetItem(d, i).1| == d.ctx
    ensures GetItem(d, i).0 == d.data[i..i + d.ctx]
    ensures forall j :: 0 <= j < d.ctx - 1 ==> GetItem(d, i).1[j] == GetItem(d, i).0[j + 1]
    ensures d.ctx > 0 ==> GetItem(d, i).1[d.ctx - 1] == d.data[i + d.ctx]
  {
  }

  /** The target window of index i is the input window of index i + 1. */
  lemma ConsecutiveWindows(d: ByteDataset, i: nat)
    requires i + 1 < Len(d)
    ensures GetItem(d, i).1 == GetItem(d, i + 1).0
  {
  }
}
