/**
 * The cursor loop that reads a `TFPGA001` file: `parse_bin` of
 * validate_matvec.py and validate_weights.py and the identical reading loop of
 * extract_weights.py's main, all with ASCII names. The per-record body is
 * shared with load_weights_int8, which decodes names as UTF-8.
 */
module BinReader {
  import opened Wrappers
  import opened FixedPoint
  import opened WeightFormat

  function Min(a: nat, b: nat): nat
  {
    if a <= b then a else b
  }

  /**
   * One record at the cursor: `f.read` returns short at the end of the file, a
   * u32 read of fewer than four bytes fails, and so does data shorter than
   * prod(shape). On success `next` is where the next record starts.
   */
  method ReadRecord(buf: seq<Byte>, pos: nat, i: nat, codec: NameCodec) returns (rec: Option<Record>, next: nat)
    ensures rec == ParseRecord(buf, pos, i, codec)
    ensures rec.Some? ==> RecordFits(buf, pos) && next == RecordEnd(buf, pos) && next <= |buf|
  {
    next := pos;
    if pos + 4 > |buf| {
      return None, pos;
    }
    var nameLen := U32At(buf, pos);
    var p := pos + 4;
    var name := buf[p..Min(p + nameLen, |buf|)];
    p := p + |name|;
    if !NameOk(codec, name) {
      NameCheckFails(buf, pos, i, codec, name);
      return None, p;
    }
    if p + 4 > |buf| {
      return None, p;
    }
    assert HeadFits(buf, pos) && name == NameAt(buf, pos);
    rec, next := ReadShapeAndData(buf, pos, i, codec);
  }

  /** The rest of a record once its name has been read and decoded. */
  method ReadShapeAndData(buf: seq<Byte>, pos: nat, i: nat, codec: NameCodec) returns (rec: Option<Record>, next: nat)
    requires HeadFits(buf, pos) && NameOk(codec, NameAt(buf, pos))
    ensures rec == ParseRecord(buf, pos, i, codec)
    ensures rec.Some? ==> RecordFits(buf, pos) && next == RecordEnd(buf, pos) && next <= |buf|
  {
    var p := NdimPos(buf, pos);
    var ndim := U32At(buf, p);
    p := p + 4;
    var dims := ReadDims(buf, p, ndim);
    if dims.None? {
      return None, p;
    }
    var shape := dims.value;
    p := p + 4 * ndim;
    if p + 4 > |buf| {
      return None, p;
    }
    assert ShapeFits(buf, pos) && shape == ShapeAt(buf, pos);
    rec, next := ReadScaleAndData(buf, pos, i, codec, shape);
  }

  /** The scale word and `f.read(size)` once the shape is known. */
  method ReadScaleAndData(buf: seq<Byte>, pos: nat, i: nat, codec: NameCodec, shape: seq<nat>) returns (rec: Option<Record>, next: nat)
    requires ShapeFits(buf, pos) && NameOk(codec, NameAt(buf, pos)) && shape == ShapeAt(buf, pos)
    ensures rec == ParseRecord(buf, pos, i, codec)
    ensures rec.Some? ==> RecordFits(buf, pos) && next == RecordEnd(buf, pos) && next <= |buf|
  {
    var p := ScalePos(buf, pos);
    var scaleHex := U32At(buf, p);
    p := p + 4;
    var size := ShapeSize(shape);
    var data := buf[p..Min(p + size, |buf|)];
    if |data| != size {
      return None, p;
    }
    rec := Some(Record(i, NameAt(buf, pos), shape, size, scaleHex, data));
    next := p + size;
  }

  /** `[struct.unpack("<I", f.read(4))[0] for _ in range(ndim)]`; fails when the file ends first. */
  method ReadDims(buf: seq<Byte>, q: nat, ndim: nat) returns (shape: Option<seq<nat>>)
    requires q <= |buf|
    ensures shape.Some? <==> q + 4 * ndim <= |buf|
    ensures shape.Some? ==> shape.value == Dims(buf, q, ndim)
  {
    var p := q;
    var dims: seq<nat> := [];
    for k := 0 to ndim
      invariant p == q + 4 * k && p <= |buf|
      invariant dims == Dims(buf, q, k)
    {
      if p + 4 > |buf| {
        return None;
      }
      DimsSnoc(buf, q, k);
      dims := dims + [U32At(buf, p)];
      p := p + 4;
    }
    return Some(dims);
  }

  /** `size = 1; for s in shape: size *= s`. */
  method ShapeSize(shape: seq<nat>) returns (size: nat)
    ensures size == Prod(shape)
  {
    size := 1;
    for j := 0 to |shape|
      invariant size == Prod(shape[..j])
    {
      ProdSnoc(shape, j);
      size := size * shape[j];
    }
    assert shape[..|shape|] == shape;
  }

  /** A name that does not decode fails the record whether or not it was read in full. */
  lemma NameCheckFails(buf: seq<Byte>, pos: nat, i: nat, codec: NameCodec, name: seq<Byte>)
    requires pos + 4 <= |buf| && !NameOk(codec, name)
    requires name == buf[pos + 4..Min(pos + 4 + NameLen(buf, pos), |buf|)]
    ensures ParseRecord(buf, pos, i, codec).None?
  {
  }

  lemma DimsSnoc(buf: seq<Byte>, q: nat, k: nat)
    requires q + 4 * (k + 1) <= |buf|
    ensures Dims(buf, q, k + 1) == Dims(buf, q, k) + [U32At(buf, q + 4 * k)]
  {
  }

  lemma ProdSnoc(shape: seq<nat>, j: nat)
    requires j < |shape|
    ensures Prod(shape[..j + 1]) == Prod(shape[..j]) * shape[j]
  {
    assert shape[..j + 1][..j] == shape[..j];
  }

  /**
   * parse_bin: the magic check, the tensor count, then one record per
   * iteration appended to the list.
   */
  method ParseBin(buf: seq<Byte>) returns (tensors: Option<seq<Record>>)
    ensures tensors == ParseContainer(buf, Ascii)
  {
    var magic := buf[..Min(8, |buf|)];
    if magic != MAGIC {
      return None;
    }
    if |buf| < HEADER_SIZE {
      return None;
    }
    var num := U32At(buf, 8);
    ContainerOfRecords(buf, Ascii);
    var pos: nat := HEADER_SIZE;
    var acc: seq<Record> := [];
    PrependNothing(ParseRecords(buf, pos, 0, num, Ascii));
    for i := 0 to num
      invariant pos <= |buf|
      invariant ParseContainer(buf, Ascii) == PrependAll(acc, ParseRecords(buf, pos, i, num, Ascii))
    {
      var rec, next := ReadRecord(buf, pos, i, Ascii);
      if rec.None? {
        return None;
      }
      ParseRecordsStep(buf, pos, i, num, Ascii);
      PrependAllTwice(acc, [rec.value], ParseRecords(buf, next, i + 1, num, Ascii));
      acc := acc + [rec.value];
      pos := next;
    }
    assert acc + [] == acc;
    return Some(acc);
  }

  lemma PrependNothing(o: Option<seq<Record>>)
    ensures PrependAll([], o) == o
  {
    if o.Some? {
      assert [] + o.value == o.value;
    }
  }

  lemma PrependAllTwice(a: seq<Record>, b: seq<Record>, o: Option<seq<Record>>)
    ensures PrependAll(a, PrependAll(b, o)) == PrependAll(a + b, o)
  {
    if o.Some? {
      assert a + (b + o.value) == (a + b) + o.value;
    }
  }
}
