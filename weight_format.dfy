/**
 * The `TFPGA001` int8 weight container: the writer `export_weights_int8` and
 * the readers `load_weights_int8` (train.py) and `parse_bin` (validate_matvec.py,
 * validate_weights.py, and the same loop in extract_weights.py's main).
 *
 * Layout: the 8 magic bytes "TFPGA001", a u32 tensor count, then per tensor
 * a u32 name length, the name bytes, a u32 ndim, ndim u32 dimensions, the
 * 4 bytes of the float32 scale and prod(shape) int8 data bytes; every u32 is
 * little-endian. The scale is carried as its 32-bit IEEE pattern, which is
 * what parse_bin keeps as `scale_hex`.
 */
module WeightFormat {
  import opened Wrappers
  import opened FixedPoint

  /** "TFPGA001" in ASCII. */
  const MAGIC: seq<Byte> := [0x54, 0x46, 0x50, 0x47, 0x41, 0x30, 0x30, 0x31]

  /** Values `struct.pack("<I", v)` accepts are below this bound. */
  const U32_LIMIT: int := 0x1_0000_0000

  /** Magic plus tensor count. */
  const HEADER_SIZE: nat := 12

  // ---------------------------------------------------------------------
  // Little-endian u32
  // ---------------------------------------------------------------------

  /** `struct.pack("<I", v)`. */
  function U32Bytes(v: nat): (b: seq<Byte>)
    requires v < U32_LIMIT
    ensures |b| == 4
  {
    [v % 256, v / 0x100 % 256, v / 0x1_0000 % 256, v / 0x100_0000]
  }

  /** `struct.unpack("<I", buf[p:p+4])[0]`. */
  function U32At(buf: seq<Byte>, p: nat): (v: nat)
    requires p + 4 <= |buf|
    ensures v < U32_LIMIT
  {
    (buf[p] as int) + 0x100 * (buf[p + 1] as int) + 0x1_0000 * (buf[p + 2] as int) + 0x100_0000 * (buf[p + 3] as int)
  }

  /** Decoding an encoded word gives the word back. */
  lemma U32RoundTrip(v: nat)
    requires v < U32_LIMIT
    ensures U32At(U32Bytes(v), 0) == v
  {
    var b := U32Bytes(v);
    assert v == v % 0x100 + 0x100 * (v / 0x100);
    assert v / 0x100 == v / 0x100 % 256 + 0x100 * (v / 0x1_0000);
    assert v / 0x1_0000 == v / 0x1_0000 % 256 + 0x100 * (v / 0x100_0000);
  }

  /** Every four bytes are the encoding of the word they decode to. */
  lemma U32Canonical(buf: seq<Byte>, p: nat)
    requires p + 4 <= |buf|
    ensures U32Bytes(U32At(buf, p)) == buf[p..p + 4]
  {
    var b0: int, b1: int, b2: int, b3: int := buf[p], buf[p + 1], buf[p + 2], buf[p + 3];
    var x := U32At(buf, p);
    DivModUnique(x, 0x100, b1 + 0x100 * b2 + 0x1_0000 * b3, b0);
    DivModUnique(x, 0x1_0000, b2 + 0x100 * b3, b0 + 0x100 * b1);
    DivModUnique(x, 0x100_0000, b3, b0 + 0x100 * b1 + 0x1_0000 * b2);
    DivModUnique(b1 + 0x100 * b2 + 0x1_0000 * b3, 256, b2 + 0x100 * b3, b1);
    DivModUnique(b2 + 0x100 * b3, 256, b3, b2);
  }

  /** Four bytes of a buffer equal to an encoding decode to that word. */
  lemma U32AtEncoded(buf: seq<Byte>, p: nat, v: nat)
    requires v < U32_LIMIT && p + 4 <= |buf| && buf[p..p + 4] == U32Bytes(v)
    ensures U32At(buf, p) == v
  {
    U32RoundTrip(v);
    assert buf[p] == buf[p..p + 4][0] && buf[p + 1] == buf[p..p + 4][1];
    assert buf[p + 2] == buf[p..p + 4][2] && buf[p + 3] == buf[p..p + 4][3];
  }

  // ---------------------------------------------------------------------
  // Tensors and the writer
  // ---------------------------------------------------------------------

  /** One exported parameter: UTF-8 name bytes, shape, scale bits and int8 data as bytes. */
  datatype Tensor = Tensor(name: seq<Byte>, shape: seq<nat>, scaleBits: nat, data: seq<Byte>)

  /** `np.prod(shape)`; the empty shape has one element. */
  function Prod(shape: seq<nat>): nat
  {
    if shape == [] then 1 else Prod(shape[..|shape| - 1]) * shape[|shape| - 1]
  }

  /** What the writer can write: u32 fields that fit and `prod(shape)` data bytes. */
  predicate Exportable(t: Tensor)
  {
    |t.name| < U32_LIMIT && |t.shape| < U32_LIMIT && t.scaleBits < U32_LIMIT
    && (forall k :: 0 <= k < |t.shape| ==> t.shape[k] < U32_LIMIT)
    && |t.data| == Prod(t.shape)
  }

  predicate AllExportable(ts: seq<Tensor>)
  {
    |ts| < U32_LIMIT && forall k :: 0 <= k < |ts| ==> Exportable(ts[k])
  }

  /** The dimensions as consecutive u32 words. */
  function DimsBytes(shape: seq<nat>): (b: seq<Byte>)
    requires forall k :: 0 <= k < |shape| ==> shape[k] < U32_LIMIT
    ensures |b| == 4 * |shape|
  {
    if shape == [] then [] else U32Bytes(shape[0]) + DimsBytes(shape[1..])
  }

  /** One tensor record: the name length, the name, then the rest. */
  function RecordBytes(t: Tensor): seq<Byte>
    requires Exportable(t)
  {
    U32Bytes(|t.name|) + (t.name + RecordTail(t))
  }

  /** What follows the name: ndim, the dimensions, the scale word and the data. */
  function RecordTail(t: Tensor): seq<Byte>
    requires Exportable(t)
  {
    U32Bytes(|t.shape|) + (DimsBytes(t.shape) + (U32Bytes(t.scaleBits) + t.data))
  }

  function RecordsBytes(ts: seq<Tensor>): seq<Byte>
    requires forall k :: 0 <= k < |ts| ==> Exportable(ts[k])
  {
    if ts == [] then [] else RecordBytes(ts[0]) + RecordsBytes(ts[1..])
  }

  /** The whole file export_weights_int8 writes. */
  function Serialize(ts: seq<Tensor>): seq<Byte>
    requires AllExportable(ts)
  {
    MAGIC + (U32Bytes(|ts|) + RecordsBytes(ts))
  }

  /** A record is 12 + len(name) + 4 ndim + prod(shape) bytes long. */
  lemma RecordLength(t: Tensor)
    requires Exportable(t)
    ensures |RecordBytes(t)| == 12 + |t.name| + 4 * |t.shape| + Prod(t.shape)
  {
  }

  /** The file starts with the magic and the tensor count. */
  lemma SerializeHeader(ts: seq<Tensor>)
    requires AllExportable(ts)
    ensures |Serialize(ts)| >= HEADER_SIZE
    ensures Serialize(ts)[..8] == MAGIC
    ensures U32At(Serialize(ts), 8) == |ts|
  {
    var s := Serialize(ts);
    assert s[8..12] == U32Bytes(|ts|);
    U32AtEncoded(s, 8, |ts|);
  }

  // ---------------------------------------------------------------------
  // The reader, as a function of the file's bytes
  // ---------------------------------------------------------------------

  /** How a reader decodes names: `decode("ascii")` in parse_bin, `decode("utf-8")` in load_weights_int8. */
  datatype NameCodec = Ascii | Utf8

  predicate IsContinuation(b: Byte)
  {
    0x80 <= b < 0xC0
  }

  /** Well-formed UTF-8 (Unicode table 3-7), what a strict `decode("utf-8")` accepts. */
  predicate Utf8Valid(s: seq<Byte>)
    decreases |s|
  {
    if s == [] then true
    else if s[0] < 0x80 then Utf8Valid(s[1..])
    else if 0xC2 <= s[0] <= 0xDF then
      |s| >= 2 && IsContinuation(s[1]) && Utf8Valid(s[2..])
    else if 0xE0 <= s[0] <= 0xEF then
      |s| >= 3 && IsContinuation(s[1]) && IsContinuation(s[2])
      && (s[0] != 0xE0 || s[1] >= 0xA0) && (s[0] != 0xED || s[1] < 0xA0)
      && Utf8Valid(s[3..])
    else if 0xF0 <= s[0] <= 0xF4 then
      |s| >= 4 && IsContinuation(s[1]) && IsContinuation(s[2]) && IsContinuation(s[3])
      && (s[0] != 0xF0 || s[1] >= 0x90) && (s[0] != 0xF4 || s[1] < 0x90)
      && Utf8Valid(s[4..])
    else false
  }

  predicate IsAscii(s: seq<Byte>)
  {
    forall k :: 0 <= k < |s| ==> s[k] < 0x80
  }

  /** Whether the name's decoding succeeds. */
  predicate NameOk(codec: NameCodec, name: seq<Byte>)
  {
    match codec
    case Ascii => IsAscii(name)
    case Utf8 => Utf8Valid(name)
  }

  /** ASCII names decode under both codecs. */
  lemma {:induction false} AsciiIsUtf8(s: seq<Byte>)
    requires IsAscii(s)
    ensures Utf8Valid(s)
    decreases |s|
  {
    if s != [] {
      AsciiIsUtf8(s[1..]);
    }
  }

  /** One dict of parse_bin's list. */
  datatype Record = Record(index: nat, name: seq<Byte>, shape: seq<nat>, size: nat, scaleHex: nat, data: seq<Byte>)

  predicate MagicOk(buf: seq<Byte>)
  {
    |buf| >= 8 && buf[..8] == MAGIC
  }

  /** `ndim` u32 words read one after the other from q. */
  function Dims(buf: seq<Byte>, q: nat, n: nat): (shape: seq<nat>)
    requires q + 4 * n <= |buf|
    ensures |shape| == n
  {
    seq(n, k requires 0 <= k < n => U32At(buf, q + 4 * k))
  }

  // Offsets inside the record that starts at p.

  function NameLen(buf: seq<Byte>, p: nat): nat
    requires p + 4 <= |buf|
  {
    U32At(buf, p)
  }

  /** The name and the ndim word are in the file. */
  predicate HeadFits(buf: seq<Byte>, p: nat)
  {
    p + 4 <= |buf| && p + 8 + NameLen(buf, p) <= |buf|
  }

  function NdimPos(buf: seq<Byte>, p: nat): nat
    requires HeadFits(buf, p)
  {
    p + 4 + NameLen(buf, p)
  }

  function NameAt(buf: seq<Byte>, p: nat): seq<Byte>
    requires HeadFits(buf, p)
  {
    buf[p + 4..NdimPos(buf, p)]
  }

  function Ndim(buf: seq<Byte>, p: nat): nat
    requires HeadFits(buf, p)
  {
    U32At(buf, NdimPos(buf, p))
  }

  function ScalePos(buf: seq<Byte>, p: nat): nat
    requires HeadFits(buf, p)
  {
    NdimPos(buf, p) + 4 + 4 * Ndim(buf, p)
  }

  /** The dimensions and the scale word are in the file. */
  predicate ShapeFits(buf: seq<Byte>, p: nat)
  {
    HeadFits(buf, p) && ScalePos(buf, p) + 4 <= |buf|
  }

  function ShapeAt(buf: seq<Byte>, p: nat): seq<nat>
    requires ShapeFits(buf, p)
  {
    Dims(buf, NdimPos(buf, p) + 4, Ndim(buf, p))
  }

  function DataPos(buf: seq<Byte>, p: nat): nat
    requires ShapeFits(buf, p)
  {
    ScalePos(buf, p) + 4
  }

  /** Where the next record starts. */
  function RecordEnd(buf: seq<Byte>, p: nat): nat
    requires ShapeFits(buf, p)
  {
    DataPos(buf, p) + Prod(ShapeAt(buf, p))
  }

  /** The whole record, data included, is in the file. */
  predicate RecordFits(buf: seq<Byte>, p: nat)
  {
    ShapeFits(buf, p) && RecordEnd(buf, p) <= |buf|
  }

  /**
   * The record at p as the reader sees it; None when a u32 or the scale is cut
   * short (struct.error), the name does not decode, or the data is shorter
   * than prod(shape).
   */
  function ParseRecord(buf: seq<Byte>, p: nat, i: nat, codec: NameCodec): (r: Option<Record>)
    ensures r.Some? <==> RecordFits(buf, p) && NameOk(codec, NameAt(buf, p))
  {
    if RecordFits(buf, p) && NameOk(codec, NameAt(buf, p)) then
      Some(Record(i, NameAt(buf, p), ShapeAt(buf, p), Prod(ShapeAt(buf, p)),
        U32At(buf, ScalePos(buf, p)), buf[DataPos(buf, p)..RecordEnd(buf, p)]))
    else None
  }

  /** The tensor a record describes. */
  function TensorOf(rec: Record): Tensor
  {
    Tensor(rec.name, rec.shape, rec.scaleHex, rec.data)
  }

  /**
   * What a record read from a file satisfies: its name decodes, its data is
   * prod(shape) bytes, and its fields fit the u32 words they came from.
   */
  predicate Consistent(rec: Record, codec: NameCodec)
  {
    NameOk(codec, rec.name) && rec.size == Prod(rec.shape) && Exportable(TensorOf(rec))
  }

  /** Prefix a successful result with records already read. */
  function PrependAll(acc: seq<Record>, o: Option<seq<Record>>): (r: Option<seq<Record>>)
    ensures r.Some? <==> o.Some?
  {
    if o.Some? then Some(acc + o.value) else None
  }

  /** Records i .. num-1 starting at byte p. */
  function ParseRecords(buf: seq<Byte>, p: nat, i: nat, num: nat, codec: NameCodec): (r: Option<seq<Record>>)
    requires i <= num
    ensures r.Some? ==> |r.value| == num - i
    decreases num - i
  {
    if i == num then Some([])
    else if ParseRecord(buf, p, i, codec).None? then None
    else PrependAll([ParseRecord(buf, p, i, codec).value], ParseRecords(buf, RecordEnd(buf, p), i + 1, num, codec))
  }

  /**
   * parse_bin / load_weights_int8 on a file's bytes: the magic is checked, the
   * count read, then the records in file order. Bytes after the last record are
   * ignored.
   */
  function ParseContainer(buf: seq<Byte>, codec: NameCodec): (r: Option<seq<Record>>)
    ensures !MagicOk(buf) ==> r.None?
    ensures r.Some? ==> |buf| >= HEADER_SIZE && |r.value| == U32At(buf, 8)
  {
    if !MagicOk(buf) || |buf| < HEADER_SIZE then None
    else ParseRecords(buf, HEADER_SIZE, 0, U32At(buf, 8), codec)
  }

  /** A record the reader accepts is consistent. */
  lemma ParseRecordConsistent(buf: seq<Byte>, p: nat, i: nat, codec: NameCodec)
    requires ParseRecord(buf, p, i, codec).Some?
    ensures ParseRecord(buf, p, i, codec).value.index == i
    ensures Consistent(ParseRecord(buf, p, i, codec).value, codec)
  {
    var rec := ParseRecord(buf, p, i, codec).value;
    assert |rec.name| == NameLen(buf, p);
    assert |rec.shape| == Ndim(buf, p);
  }

  /** Records i .. num-1 come with consecutive indices and are each consistent. */
  lemma {:induction false} ParseRecordsConsistent(buf: seq<Byte>, p: nat, i: nat, num: nat, codec: NameCodec)
    requires i <= num && ParseRecords(buf, p, i, num, codec).Some?
    ensures forall k :: 0 <= k < num - i ==>
      ParseRecords(buf, p, i, num, codec).value[k].index == i + k
      && Consistent(ParseRecords(buf, p, i, num, codec).value[k], codec)
    decreases num - i
  {
    if i < num {
      var rs := ParseRecords(buf, p, i, num, codec).value;
      var rest := ParseRecords(buf, RecordEnd(buf, p), i + 1, num, codec).value;
      ParseRecordConsistent(buf, p, i, codec);
      ParseRecordsConsistent(buf, RecordEnd(buf, p), i + 1, num, codec);
      assert rs == [ParseRecord(buf, p, i, codec).value] + rest;
      forall k | 1 <= k < num - i
        ensures rs[k].index == i + k && Consistent(rs[k], codec)
      {
        assert rs[k] == rest[k - 1];
      }
    }
  }

  /**
   * Everything parse_bin returns is in file order with `index == position`,
   * `size == prod(shape)`, `len(data) == size` and a name that decodes.
   */
  lemma ContainerConsistent(buf: seq<Byte>, codec: NameCodec)
    requires ParseContainer(buf, codec).Some?
    ensures forall k :: 0 <= k < |ParseContainer(buf, codec).value| ==>
      ParseContainer(buf, codec).value[k].index == k && Consistent(ParseContainer(buf, codec).value[k], codec)
  {
    ParseRecordsConsistent(buf, HEADER_SIZE, 0, U32At(buf, 8), codec);
  }

  // ---------------------------------------------------------------------
  // Round trips between the writer and the reader
  // ---------------------------------------------------------------------

  /** The record the reader makes of tensor t written at position i. */
  function RecordOf(t: Tensor, i: nat): Record
  {
    Record(i, t.name, t.shape, Prod(t.shape), t.scaleBits, t.data)
  }

  /** The records of a tensor list whose first index is i. */
  function Indexed(ts: seq<Tensor>, i: nat): (rs: seq<Record>)
    ensures |rs| == |ts|
    ensures forall k :: 0 <= k < |ts| ==> rs[k] == RecordOf(ts[k], i + k)
  {
    seq(|ts|, k requires 0 <= k < |ts| => RecordOf(ts[k], i + k))
  }

  /** A slice equal to x + y splits into a slice equal to x and one equal to y. */
  lemma Peel(buf: seq<Byte>, p: nat, x: seq<Byte>, y: seq<Byte>)
    requires p + |x| + |y| <= |buf| && buf[p..p + |x| + |y|] == x + y
    ensures buf[p..p + |x|] == x
    ensures buf[p + |x|..p + |x| + |y|] == y
  {
    assert buf[p..p + |x|] == buf[p..p + |x| + |y|][..|x|];
    assert buf[p + |x|..p + |x| + |y|] == buf[p..p + |x| + |y|][|x|..];
  }

  lemma DimsStep(buf: seq<Byte>, q: nat, n: nat)
    requires n >= 1 && q + 4 * n <= |buf|
    ensures Dims(buf, q, n) == [U32At(buf, q)] + Dims(buf, q + 4, n - 1)
  {
    var tail := Dims(buf, q + 4, n - 1);
    forall k | 1 <= k < n
      ensures Dims(buf, q, n)[k] == tail[k - 1]
    {
      assert q + 4 + 4 * (k - 1) == q + 4 * k;
    }
  }

  /** Dimensions written as u32 words are read back as the same dimensions. */
  lemma {:induction false} DimsOfEncoded(buf: seq<Byte>, q: nat, shape: seq<nat>)
    requires forall k :: 0 <= k < |shape| ==> shape[k] < U32_LIMIT
    requires q + 4 * |shape| <= |buf| && buf[q..q + 4 * |shape|] == DimsBytes(shape)
    ensures Dims(buf, q, |shape|) == shape
    decreases |shape|
  {
    if shape != [] {
      Peel(buf, q, U32Bytes(shape[0]), DimsBytes(shape[1..]));
      U32AtEncoded(buf, q, shape[0]);
      DimsOfEncoded(buf, q + 4, shape[1..]);
      DimsStep(buf, q, |shape|);
      assert [shape[0]] + shape[1..] == shape;
    }
  }

  /** A written record, wherever it sits in a buffer, is read back as itself. */
  lemma RecordOfEncoded(buf: seq<Byte>, p: nat, t: Tensor, i: nat, codec: NameCodec)
    requires Exportable(t) && NameOk(codec, t.name)
    requires p + |RecordBytes(t)| <= |buf| && buf[p..p + |RecordBytes(t)|] == RecordBytes(t)
    ensures RecordFits(buf, p) && RecordEnd(buf, p) == p + |RecordBytes(t)|
    ensures ParseRecord(buf, p, i, codec) == Some(RecordOf(t, i))
  {
    HeadOfEncoded(buf, p, t);
    TailOfEncoded(buf, NdimPos(buf, p), t);
    assert ShapeAt(buf, p) == t.shape;
    ParseRecordFields(buf, p, i, codec, t);
  }

  /** The name length and the name of a written record. */
  lemma HeadOfEncoded(buf: seq<Byte>, p: nat, t: Tensor)
    requires Exportable(t)
    requires p + |RecordBytes(t)| <= |buf| && buf[p..p + |RecordBytes(t)|] == RecordBytes(t)
    ensures HeadFits(buf, p) && NdimPos(buf, p) == p + 4 + |t.name| && NameAt(buf, p) == t.name
    ensures NdimPos(buf, p) + |RecordTail(t)| <= |buf|
    ensures buf[NdimPos(buf, p)..NdimPos(buf, p) + |RecordTail(t)|] == RecordTail(t)
  {
    Peel(buf, p, U32Bytes(|t.name|), t.name + RecordTail(t));
    U32AtEncoded(buf, p, |t.name|);
    Peel(buf, p + 4, t.name, RecordTail(t));
  }

  /** ndim, the dimensions, the scale word and the data of a written record. */
  lemma TailOfEncoded(buf: seq<Byte>, q: nat, t: Tensor)
    requires Exportable(t)
    requires q + |RecordTail(t)| <= |buf| && buf[q..q + |RecordTail(t)|] == RecordTail(t)
    ensures U32At(buf, q) == |t.shape|
    ensures Dims(buf, q + 4, |t.shape|) == t.shape
    ensures U32At(buf, q + 4 + 4 * |t.shape|) == t.scaleBits
    ensures buf[q + 8 + 4 * |t.shape|..q + 8 + 4 * |t.shape| + |t.data|] == t.data
  {
    var rest := DimsBytes(t.shape) + (U32Bytes(t.scaleBits) + t.data);
    Peel(buf, q, U32Bytes(|t.shape|), rest);
    U32AtEncoded(buf, q, |t.shape|);
    ShapeOfEncoded(buf, q + 4, t);
  }

  /** The dimensions, the scale word and the data of a written record. */
  lemma ShapeOfEncoded(buf: seq<Byte>, r: nat, t: Tensor)
    requires Exportable(t)
    requires r + |DimsBytes(t.shape) + (U32Bytes(t.scaleBits) + t.data)| <= |buf|
    requires buf[r..r + |DimsBytes(t.shape) + (U32Bytes(t.scaleBits) + t.data)|] == DimsBytes(t.shape) + (U32Bytes(t.scaleBits) + t.data)
    ensures Dims(buf, r, |t.shape|) == t.shape
    ensures U32At(buf, r + 4 * |t.shape|) == t.scaleBits
    ensures buf[r + 4 + 4 * |t.shape|..r + 4 + 4 * |t.shape| + |t.data|] == t.data
  {
    Peel(buf, r, DimsBytes(t.shape), U32Bytes(t.scaleBits) + t.data);
    DimsOfEncoded(buf, r, t.shape);
    ScaleOfEncoded(buf, r + 4 * |t.shape|, t);
  }

  /** The scale word and the data that close a written record. */
  lemma ScaleOfEncoded(buf: seq<Byte>, sp: nat, t: Tensor)
    requires t.scaleBits < U32_LIMIT
    requires sp + 4 + |t.data| <= |buf| && buf[sp..sp + 4 + |t.data|] == U32Bytes(t.scaleBits) + t.data
    ensures U32At(buf, sp) == t.scaleBits
    ensures buf[sp + 4..sp + 4 + |t.data|] == t.data
  {
    Peel(buf, sp, U32Bytes(t.scaleBits), t.data);
    U32AtEncoded(buf, sp, t.scaleBits);
  }

  /** The record read at p once each of its fields is known. */
  lemma ParseRecordFields(buf: seq<Byte>, p: nat, i: nat, codec: NameCodec, t: Tensor)
    requires RecordFits(buf, p) && NameOk(codec, t.name)
    requires NameAt(buf, p) == t.name && ShapeAt(buf, p) == t.shape
    requires U32At(buf, ScalePos(buf, p)) == t.scaleBits
    requires buf[DataPos(buf, p)..RecordEnd(buf, p)] == t.data
    ensures ParseRecord(buf, p, i, codec) == Some(RecordOf(t, i))
  {
  }

  lemma IndexedCons(ts: seq<Tensor>, i: nat)
    requires ts != []
    ensures Indexed(ts, i) == [RecordOf(ts[0], i)] + Indexed(ts[1..], i + 1)
  {
    var lhs, tail := Indexed(ts, i), Indexed(ts[1..], i + 1);
    var rhs := [RecordOf(ts[0], i)] + tail;
    forall k | 1 <= k < |ts|
      ensures lhs[k] == rhs[k]
    {
      assert rhs[k] == tail[k - 1];
      assert ts[1..][k - 1] == ts[k];
    }
    assert lhs == rhs;
  }

  /** Written records, read from where they start, come back in order with consecutive indices. */
  lemma {:induction false} RecordsOfEncoded(buf: seq<Byte>, p: nat, ts: seq<Tensor>, i: nat, num: nat, codec: NameCodec)
    requires num == i + |ts|
    requires AllWritable(ts, codec)
    requires p + |RecordsBytes(ts)| <= |buf| && buf[p..p + |RecordsBytes(ts)|] == RecordsBytes(ts)
    ensures ParseRecords(buf, p, i, num, codec) == Some(Indexed(ts, i))
    decreases |ts|
  {
    if ts != [] {
      ExportableTail(ts, codec);
      var first, others := RecordBytes(ts[0]), RecordsBytes(ts[1..]);
      var q := p + |first|;
      Peel(buf, p, first, others);
      RecordsOfEncoded(buf, q, ts[1..], i + 1, num, codec);
      RecordOfEncoded(buf, p, ts[0], i, codec);
      RecordsCons(buf, p, q, i, num, codec, RecordOf(ts[0], i), Indexed(ts[1..], i + 1));
      IndexedCons(ts, i);
    }
  }

  /** Every tensor can be written and its name read back under codec. */
  predicate AllWritable(ts: seq<Tensor>, codec: NameCodec)
  {
    forall k :: 0 <= k < |ts| ==> Exportable(ts[k]) && NameOk(codec, ts[k].name)
  }

  lemma ExportableTail(ts: seq<Tensor>, codec: NameCodec)
    requires ts != [] && AllWritable(ts, codec)
    ensures Exportable(ts[0]) && NameOk(codec, ts[0].name)
    ensures AllWritable(ts[1..], codec)
    ensures RecordsBytes(ts) == RecordBytes(ts[0]) + RecordsBytes(ts[1..])
  {
    forall k | 0 <= k < |ts[1..]|
      ensures Exportable(ts[1..][k]) && NameOk(codec, ts[1..][k].name)
    {
      assert ts[1..][k] == ts[k + 1];
    }
  }

  /** A record followed by the records after it. */
  lemma RecordsCons(buf: seq<Byte>, p: nat, q: nat, i: nat, num: nat, codec: NameCodec, head: Record, rest: seq<Record>)
    requires i < num && ParseRecord(buf, p, i, codec) == Some(head) && RecordFits(buf, p) && q == RecordEnd(buf, p)
    requires ParseRecords(buf, q, i + 1, num, codec) == Some(rest)
    ensures ParseRecords(buf, p, i, num, codec) == Some([head] + rest)
  {
    ParseRecordsStep(buf, p, i, num, codec);
  }

  /** One step of the record loop: the record at p, then the rest from where it ends. */
  lemma ParseRecordsStep(buf: seq<Byte>, p: nat, i: nat, num: nat, codec: NameCodec)
    requires i < num && ParseRecord(buf, p, i, codec).Some?
    ensures RecordFits(buf, p)
    ensures ParseRecords(buf, p, i, num, codec)
      == PrependAll([ParseRecord(buf, p, i, codec).value], ParseRecords(buf, RecordEnd(buf, p), i + 1, num, codec))
  {
  }

  /**
   * Round trip: reading what export_weights_int8 wrote, followed by any
   * trailing bytes, gives every tensor back in order, with index == position
   * and size == prod(shape), for either name codec the names decode under.
   */
  lemma ParseOfSerialize(ts: seq<Tensor>, rest: seq<Byte>, codec: NameCodec)
    requires AllExportable(ts)
    requires forall k :: 0 <= k < |ts| ==> NameOk(codec, ts[k].name)
    ensures ParseContainer(Serialize(ts) + rest, codec) == Some(Indexed(ts, 0))
  {
    var buf := Serialize(ts) + rest;
    SerializedLayout(ts, rest);
    RecordsOfEncoded(buf, HEADER_SIZE, ts, 0, |ts|, codec);
    ContainerOfRecords(buf, codec);
  }

  /** Where the parts of a written file lie. */
  lemma SerializedLayout(ts: seq<Tensor>, rest: seq<Byte>)
    requires AllExportable(ts)
    ensures MagicOk(Serialize(ts) + rest)
    ensures |Serialize(ts) + rest| >= HEADER_SIZE && U32At(Serialize(ts) + rest, 8) == |ts|
    ensures HEADER_SIZE + |RecordsBytes(ts)| <= |Serialize(ts) + rest|
    ensures (Serialize(ts) + rest)[HEADER_SIZE..HEADER_SIZE + |RecordsBytes(ts)|] == RecordsBytes(ts)
  {
    var body := RecordsBytes(ts);
    var buf := Serialize(ts) + rest;
    assert buf[0..8 + (4 + |body|)] == Serialize(ts);
    Peel(buf, 0, MAGIC, U32Bytes(|ts|) + body);
    Peel(buf, 8, U32Bytes(|ts|), body);
    U32AtEncoded(buf, 8, |ts|);
  }

  /** The container read is the record read after a good header. */
  lemma ContainerOfRecords(buf: seq<Byte>, codec: NameCodec)
    requires MagicOk(buf) && |buf| >= HEADER_SIZE
    ensures ParseContainer(buf, codec) == ParseRecords(buf, HEADER_SIZE, 0, U32At(buf, 8), codec)
  {
  }
}
