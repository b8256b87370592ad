# Integer golden models and the TFPGA001 weight container

This project models, in Dafny, the integer reference ("golden") models that the
FPGA transformer's test benches are checked against, and the `TFPGA001` int8
weight container that training writes and the extraction and validation
scripts read.

The golden models:

- **SafeSoftmax.** A bipartite-table exp(-d), a saturating 24-bit sum, a
  leading-one log-sum offset and a second table pass in place of the division.
  The model also covers the two exp tables' `.hex` writer and loader.
- **Reciprocal square root.** Leading-one detection, normalisation, a
  512-entry table and a barrel shift. The data width is a parameter: 14 in one
  validator, 17 in the LayerNorm validator.
- **LayerNorm.** A mean pass, a variance pass and a normalise pass with a
  33-bit product, a rounding shift and an 18-bit add. The model also covers
  the table that places the nine gamma/beta pairs in the packed parameter
  memory.
- **Multiply-shift-saturate requantiser.** Both hardware configurations.
- **24-bit matrix-vector accumulator.** For the all-ones test vector.
- **Token-plus-position embedding.** A 9-bit add and bits [8:1].
- **GELU.** A table lookup.

The container:

- **Writer and loader.** `export_weights_int8` and `load_weights_int8`.
- **Reading loop.** The cursor loop shared by `parse_bin` and the extractor.
- **Extractor.** Its name sanitiser and Verilog parameter names, the per-tensor
  `.hex` dumps it writes and reads back, and the packed LayerNorm parameter
  file.
- **Weight-store reference.** The first and last byte of every tensor.
- **Training windows.** `ByteDataset`.

Where the source of a golden model loops (softmax, inverse square root,
layer norm, matvec), the model is a specification function plus a method
with the source's loops, proved equal to the function. Requant, embedding
and GELU have no loops and are functions only. The properties are lemmas
about the functions. The container's reading, writing and table-loading
loops are methods proved against functions in the same way.

The central container result is a round trip, `WeightFormat.ParseOfSerialize`:
reading back an exported file returns the tensors that were written.

Bit operations are written arithmetically:

- `x >> n` is floor division by 2^n;
- `x & (2^n-1)` is `x % 2^n`;
- `(a << n) | b` is `a * 2^n + b` for disjoint fields;
- every fixed-width register is an explicit two's-complement wrap
  (`FixedPoint.WrapSigned`).

Points where the model had to choose:

- **Python exceptions.** A failed `struct.unpack` or `assert`, an
  `IndexError`, a `KeyError` or a `ValueError` becomes `None` or an error
  verdict.
- **Files.** A file is its bytes, or its text, and is a parameter.
- **Directory.** The directory of written `.hex` files is a `map` from file
  name to text.
- **Scale.** The scale is kept as its 32-bit IEEE 754 word and is not treated
  as a float.

## Model

| member | source | states |
|---|---|---|
| FixedPoint.ToSigned8 | scripts/tests/validate_requant.py:23-24 | defines `to_signed8`: a byte of 128 or more is read as itself minus 256. ToSigned8Bijection and ToSigned8Onto state what it means |
| FixedPoint.ToSigned8Bijection | scripts/tests/validate_requant.py:23-24 | the signed reading of a byte is an int8 value congruent to the byte modulo 256 |
| FixedPoint.ToSigned8Onto | scripts/tests/validate_requant.py:23-24 | every int8 value is the signed reading of exactly one byte, `v % 256` |
| FixedPoint.ClampInt8 | scripts/tests/validate_matvec.py:59-62 | the result is in [-128, 127]; a value in range is unchanged, a larger one gives 127, a smaller one -128 |
| FixedPoint.ClampInt8Mono | scripts/tests/validate_requant.py:40 | saturation preserves order |
| FixedPoint.WrapSigned | scripts/tests/validate_matvec.py:65-67 | the w-bit wrap lands in [-2^(w-1), 2^(w-1)) |
| FixedPoint.WrapSignedCongruent | scripts/tests/validate_matvec.py:66 | the wrap changes the value only by a multiple of 2^w |
| FixedPoint.WrapSignedId | scripts/tests/validate_matvec.py:67 | a value the register can hold passes through the wrap unchanged |
| FixedPoint.AsrIsDiv | scripts/tests/validate_inv_sqrt.py:48 | an arithmetic right shift by n is floor division by 2^n |
| FixedPoint.LowBitsIsMod | scripts/tests/validate_inv_sqrt.py:40 | masking with 2^n - 1 keeps the residue modulo 2^n, which lies in [0, 2^n) |
| FixedPoint.Log2FloorBounds | scripts/tests/validate_inv_sqrt.py:33-36 | the leading-one position k of a positive value satisfies 2^k <= v < 2^(k+1) |
| HexText.FormatHexValue | scripts/gen_softmax_luts.py:169 | the digits `{v:0wx}` writes denote v |
| HexText.FormatHexWidth | scripts/gen_softmax_luts.py:169 | a value below 16^w is written with exactly w digits |
| HexText.FormatHexLowercase | scripts/extract_weights.py:103 | every written digit is `0-9` or `a-f` |
| HexText.ParseHex | scripts/tests/validate_softmax.py:35 | `int(s, 16)` succeeds exactly when the stripped text is non-empty and all hex digits |
| HexText.ParseFormatHex | scripts/tests/validate_softmax.py:35 | parsing what the writer formatted gives back the value |
| HexText.StripResult | scripts/extract_weights.py:111 | `strip()` returns a contiguous piece of the text with no whitespace at either end |
| HexText.StripFixed | scripts/extract_weights.py:111 | a text with no whitespace at either end is not changed by `strip()` |
| HexText.Split | scripts/extract_weights.py:111 | `split("\n")` always returns at least one piece |
| HexText.SplitJoinLines | scripts/extract_weights.py:111 | splitting newline-joined, newline-free lines returns exactly those lines |
| HexText.SplitTerminated | scripts/tests/validate_softmax.py:31 | splitting a newline-terminated file gives its lines followed by one empty piece |
| WeightFormat.U32Bytes | scripts/train/train.py:188 | `struct.pack("<I", v)` is four bytes |
| WeightFormat.U32At | scripts/validate_weights.py:24 | an unpacked u32 is below 2^32 |
| WeightFormat.U32RoundTrip | scripts/train/train.py:188 | unpacking a packed u32 returns it |
| WeightFormat.U32Canonical | scripts/validate_weights.py:24 | packing an unpacked u32 returns the four bytes it was read from |
| WeightFormat.AsciiIsUtf8 | scripts/train/train.py:211 | a name the ASCII readers accept also decodes as UTF-8 |
| WeightFormat.DimsBytes | scripts/train/train.py:195-196 | the shape is written as four bytes per dimension |
| WeightFormat.Dims | scripts/validate_weights.py:29 | reading ndim words gives ndim dimensions |
| WeightFormat.RecordBytes | scripts/train/train.py:191-198 | defines one record as written: the u32 name length, the name bytes, ndim, each dimension, the scale word and the data. RecordLength and RecordOfEncoded are its properties |
| WeightFormat.Serialize | scripts/train/train.py:187-198 | defines the whole exported file: the magic, the u32 tensor count, then the records in order. ParseOfSerialize is its round trip |
| WeightFormat.RecordLength | scripts/train/train.py:191-198 | a record is 12 + len(name) + 4 ndim + prod(shape) bytes |
| WeightFormat.SerializeHeader | scripts/train/train.py:187-188 | an exported file starts with `TFPGA001` and the tensor count |
| WeightFormat.ParseRecord | scripts/validate_weights.py:26-42 | a record is read exactly when all its fields fit in the file and its name decodes |
| WeightFormat.ParseRecords | scripts/validate_weights.py:25-42 | a successful loop yields one record per remaining count |
| WeightFormat.ParseContainer | scripts/validate_weights.py:22-25 | a bad magic fails; a success has a full header and as many tensors as the count says |
| WeightFormat.ParseRecordConsistent | scripts/validate_weights.py:33-42 | a parsed record has its loop index as its index, and its size is prod(shape) and the length of its data |
| WeightFormat.ParseRecordsConsistent | scripts/validate_weights.py:25-42 | every record of the loop is numbered by its position and consistent |
| WeightFormat.ContainerConsistent | scripts/validate_weights.py:19-43 | every tensor of a parsed file is numbered by its position and consistent |
| WeightFormat.DimsOfEncoded | scripts/validate_weights.py:29 | reading back a written shape returns it |
| WeightFormat.RecordOfEncoded | scripts/validate_weights.py:26-42 | reading back an exported record returns that tensor and ends just after it |
| WeightFormat.RecordsOfEncoded | scripts/validate_weights.py:25-42 | reading back exported records returns them, numbered from the first index |
| WeightFormat.ParseOfSerialize | scripts/train/train.py:184-198 | parsing an exported file, followed by anything, returns the exported tensors numbered 0, 1, ... |
| BinReader.ReadRecord | scripts/validate_weights.py:26-42 | the record read at the cursor is the record the container defines there, and the cursor moves to its end |
| BinReader.ReadShapeAndData | scripts/validate_weights.py:28-42 | the same, once the name has been read |
| BinReader.ReadScaleAndData | scripts/validate_weights.py:30-42 | the same, once the shape has been read |
| BinReader.ReadDims | scripts/validate_weights.py:29 | the shape is read exactly when ndim words fit, and it is those words |
| BinReader.ShapeSize | scripts/validate_weights.py:33-35 | the size loop computes the product of the dimensions |
| BinReader.NameCheckFails | scripts/validate_weights.py:27 | a name that does not decode fails the record |
| BinReader.ParseBin | scripts/validate_weights.py:19-43 | `parse_bin` returns exactly the parse of the file with ASCII names |
| Train.ExportWeightsInt8 | scripts/train/train.py:184-198 | the bytes written are the container encoding of the tensors |
| Train.WriteRecords | scripts/train/train.py:189-198 | the record loop appends the encoding of every tensor |
| Train.WriteRecord | scripts/train/train.py:191-198 | one iteration appends one record's encoding |
| Train.WriteTail | scripts/train/train.py:194-198 | ndim, dimensions, scale and data are appended in that order |
| Train.WriteDims | scripts/train/train.py:195-196 | the dimension loop appends the shape's encoding |
| Train.ToDict | scripts/train/train.py:209-216 | defines the dictionary `tensors[name] = …` built over the records in file order. ToDictKeys and ToDictLastWins state its keys and that a repeated name keeps its last record |
| Train.LoadWeightsSpec | scripts/train/train.py:203-217 | defines load_weights_int8 on the file's bytes: the UTF-8 parse, failing on a bad magic or a short read, then ToDict. LoadOfExport and LoadRejectsBadMagic are its properties |
| Train.LoadWeightsInt8 | scripts/train/train.py:203-217 | the loader's dictionary is the parse of the file with UTF-8 names, entered record by record |
| Train.ToDictKeys | scripts/train/train.py:216 | the dictionary's keys are the names of the records |
| Train.ToDictLastWins | scripts/train/train.py:216 | a name maps to the last record that carries it |
| Train.LoadOfExport | scripts/train/train.py:184-217 | loading an export of tensors with distinct UTF-8 names succeeds, with keys equal to the names and each value the shape, scale and data written |
| Train.LoadRejectsBadMagic | scripts/train/train.py:206-207 | a file without the magic is refused |
| Train.Len | scripts/train/train.py:151-152 | defines `__len__` as `len(data) - ctx` |
| Train.GetItem | scripts/train/train.py:153-154 | defines `__getitem__` as the pair of clamped slices `data[i:i+ctx]` and `data[i+1:i+ctx+1]`. GetItemWindows and ConsecutiveWindows state what they hold |
| Train.GetItemWindows | scripts/train/train.py:151-154 | below `len`, both windows are ctx bytes, the input is `data[i:i+ctx]` and the target is the input shifted by one byte |
| Train.ConsecutiveWindows | scripts/train/train.py:153-154 | the target of index i is the input of index i + 1 |
| ValidateWeights.EndsOf | scripts/validate_weights.py:46 | defines the pair `(data[0], data[-1])` of a non-empty tensor |
| ValidateWeights.GoldenWeightStore | scripts/validate_weights.py:45-46 | the store exists exactly when no tensor is empty |
| ValidateWeights.StoreOfIndexed | scripts/validate_weights.py:45-46 | for records numbered by position the store has one key per tensor, holding its first and last byte |
| ValidateWeights.StoreOfContainer | scripts/validate_weights.py:19-46 | the store of a parsed file has keys 0 .. count-1, each holding that tensor's first and last byte |
| ValidateWeights.SingleByteEnds | scripts/validate_weights.py:46 | a one-byte tensor has equal first and last bytes |
| ValidateWeights.ExpectedByte | scripts/validate_weights.py:102-114 | an expectation exists exactly for stored indices; address 0 expects the first byte, any other the last |
| ValidateWeights.ExpectedOfContainer | scripts/validate_weights.py:97-114 | against a file's store, tensor idx has an expectation exactly when idx is in range, namely `data[0]` or `data[-1]` |
| ExtractWeights.AsciiText | scripts/extract_weights.py:70 | ASCII decoding gives one character per byte with the same code |
| ExtractWeights.Replace | scripts/extract_weights.py:44-47 | defines `str.replace` as a left-to-right scan that rewrites each non-overlapping occurrence and resumes after it. ReplaceNoMatch, ReplaceRemoves and DotsToUnderscores are its properties |
| ExtractWeights.SanitizeName | scripts/extract_weights.py:42-48 | defines sanitize_name: the four replacements in the source's order. The Sanitize lemmas below state what it produces |
| ExtractWeights.ReplaceRemoves | scripts/extract_weights.py:47 | after `replace(c, r)` with r free of c, no c is left |
| ExtractWeights.DotsToUnderscores | scripts/extract_weights.py:47 | `replace(".", "_")` turns each dot into an underscore and keeps everything else |
| ExtractWeights.SanitizeNameDotFree | scripts/extract_weights.py:42-48 | a sanitised name contains no dot |
| ExtractWeights.SanitizeNameIdempotent | scripts/extract_weights.py:42-48 | sanitising a sanitised name changes nothing |
| ExtractWeights.ReplaceNoMatch | scripts/extract_weights.py:44-46 | `replace` leaves a text in which the pattern occurs nowhere unchanged |
| ExtractWeights.SanitizeWithoutRewrites | scripts/extract_weights.py:42-48 | a name in which none of `ff.net.0.`, `ff.net.2.` and `blocks.` occurs only has its dots replaced |
| ExtractWeights.SanitizeTopLevel | scripts/extract_weights.py:39-40 | a dot-free module and parameter joined by '.', with none of the three patterns occurring, become `module_param` (`tok_emb.weight`, `ln_f.weight`, `ln_f.bias`) |
| ExtractWeights.SanitizeBlockParam | scripts/extract_weights.py:42-48 | for a layer index L (no '.', 'f' or 'b') and any path in which none of the three patterns occurs (`attn.qkv.weight`, `ln1.bias`), `blocks.L.path` becomes `blockL_` followed by the path with dots replaced |
| ExtractWeights.SanitizeBlockLayerNorm | scripts/extract_weights.py:42-48 | a block's layer-norm names `blocks.L.ln1.weight`, `blocks.L.ln1.bias`, `blocks.L.ln2.weight` and `blocks.L.ln2.bias` become `blockL_ln1_weight` and so on |
| ExtractWeights.SanitizeFeedForward | scripts/extract_weights.py:37-38 | for any rest in which none of the three patterns occurs, `blocks.L.ff.net.0.rest` becomes `blockL_ff_up_` followed by the rest with dots replaced, and `ff.net.2.` becomes `ff_down_` |
| ExtractWeights.UpperChar | scripts/extract_weights.py:52 | an upper-cased character is not a lower-case letter |
| ExtractWeights.VerilogParamName | scripts/extract_weights.py:50-52 | the name is `SCALE_` followed by the stem upper-cased character by character, with no lower-case letter |
| ExtractWeights.VerilogParamNameInjective | scripts/extract_weights.py:50-52 | distinct stems without capitals give distinct parameter names |
| ExtractWeights.HexFile | scripts/extract_weights.py:100-103 | defines the text of a `.hex` file: one `{byte:02x}` line per byte, each ending in a newline |
| ExtractWeights.HexLineRoundTrip | scripts/extract_weights.py:103 | each byte's line is two lower-case hex digits that parse back to the byte |
| ExtractWeights.WriteHex | scripts/extract_weights.py:101-103 | the byte loop appends one `{byte:02x}` line per byte |
| ExtractWeights.ReadLinesAsWritten | scripts/extract_weights.py:111 | the re-read always yields at least one line, even for an empty file |
| ExtractWeights.ScanFrom | scripts/extract_weights.py:116-121 | a failing line's index lies in the scanned range, and the line loop never reports a count failure |
| ExtractWeights.CheckLinesLoop | scripts/extract_weights.py:112-121 | the count check and line loop give the check's verdict |
| ExtractWeights.CheckLinesVerified | scripts/extract_weights.py:112-121 | a tensor verifies exactly when there is one line per byte and each line parses to its byte |
| ExtractWeights.ReadBackNonEmpty | scripts/extract_weights.py:110-111 | the dump of a non-empty tensor reads back as exactly its lines |
| ExtractWeights.AsWrittenVerifiesNonEmpty | scripts/extract_weights.py:98-121 | as written, the dump of every non-empty tensor verifies |
| ExtractWeights.VerifyAsWritten | scripts/extract_weights.py:110-121 | defines the re-read check as written: `strip().split("\n")`, the line count test and the line loop. AsWrittenVerifiesNonEmpty and AsWrittenRejectsEmpty are its properties |
| ExtractWeights.VerifyHex | scripts/extract_weights.py:110-121 | defines the same check with an empty text read as no lines. WrittenFileVerifies and VerifyHexDeterminate are its properties |
| ExtractWeights.AsWrittenRejectsEmpty | scripts/extract_weights.py:111-115 | as written, the empty dump of a zero-size tensor fails the count check with one line |
| ExtractWeights.WrittenFileVerifies | scripts/extract_weights.py:98-121 | with an empty text read as no lines, every dump verifies against its tensor |
| ExtractWeights.ReadLinesAgrees | scripts/extract_weights.py:111 | the corrected reading differs from the written one only on texts that strip to empty |
| ExtractWeights.VerifyHexDeterminate | scripts/extract_weights.py:112-121 | a text verifies against at most one tensor's data |
| ExtractWeights.DumpNeverMalformed | scripts/extract_weights.py:117 | checking a dump against any data never raises on `int(line, 16)` |
| ExtractWeights.EntryOf | scripts/extract_weights.py:84-96 | an entry's stem is the sanitised name, its file is that stem plus `.hex`, and the stem has no dot |
| ExtractWeights.ReadTensors | scripts/extract_weights.py:58-96 | defines what main holds after its read loop: the ASCII-name parse of the file, each record turned into its entry, or failure. ReadTensorsShape is its property |
| ExtractWeights.ReadTensorsLoop | scripts/extract_weights.py:58-96 | the extractor's read loop gives the parse of the file, each record turned into its entry |
| ExtractWeights.ReadTensorsShape | scripts/extract_weights.py:67-96 | the entries are as many as the count, numbered by position, each holding `size` bytes |
| ExtractWeights.WriteHexFiles | scripts/extract_weights.py:98-104 | the write loop leaves each entry's dump under its file name, later writes replacing earlier ones |
| ExtractWeights.WrittenFilesNamed | scripts/extract_weights.py:98-104 | every entry's file exists after the loop |
| ExtractWeights.WrittenFilesHold | scripts/extract_weights.py:98-104 | without a clash of file names, each file holds exactly its entry's dump |
| ExtractWeights.WrittenFilesElsewhere | scripts/extract_weights.py:98-104 | files no entry names keep what the directory held |
| ExtractWeights.RecheckEntry | scripts/extract_weights.py:108-121 | one re-read opens the entry's file (failing when it is missing) and gives its verdict |
| ExtractWeights.Tally | scripts/extract_weights.py:113-120 | a verified tensor leaves the counter, a failed one adds one, a parse error ends the run |
| ExtractWeights.ErrorCount | scripts/extract_weights.py:106-121 | the error counter never exceeds the number of tensors |
| ExtractWeights.VerifyHexFiles | scripts/extract_weights.py:106-121 | the re-read loop computes that counter |
| ExtractWeights.CountZero | scripts/extract_weights.py:122-125 | the counter is zero exactly when every tensor verified |
| ExtractWeights.WrittenFilesCounted | scripts/extract_weights.py:98-121 | re-reading the files just written never raises |
| ExtractWeights.RecheckWrittenFiles | scripts/extract_weights.py:98-126 | with the corrected reading of an empty file (`ReadLines`, not `ReadLinesAsWritten`), re-reading the files just written reports no error exactly when no two tensors with different data share a file name |
| ExtractWeights.LnIndices | scripts/extract_weights.py:147 | `ln_indices` are positions of entries |
| ExtractWeights.LnIndicesMembers | scripts/extract_weights.py:147 | a position is selected exactly when its entry has size 128 |
| ExtractWeights.LnIndicesIncreasing | scripts/extract_weights.py:147 | the selection is in file order |
| ExtractWeights.LnBytes | scripts/extract_weights.py:147-152 | defines the bytes ln_params.hex holds: the data of the size-128 entries concatenated in file order. LnLayout states where each byte lies |
| ExtractWeights.PackLnParams | scripts/extract_weights.py:146-152 | ln_params.hex is the dump of the selected tensors' bytes, one after the other |
| ExtractWeights.LnLayout | scripts/extract_weights.py:146-152 | byte j of selected tensor n is at offset 128 n + j of the packed parameters |
| LnOffsets.OffsetRule | scripts/tests/validate_layernorm.py:24-30 | selector 4q+2 is at 256q and selector 4q+3 at 256q+128, for q = 0 .. 8, and there are no others |
| LnOffsets.OffsetsCount | scripts/tests/validate_layernorm.py:24-30 | the table has the 18 LayerNorm tensors |
| LnOffsets.OffsetsKeys | scripts/tests/validate_layernorm.py:24-30 | the table's selectors are exactly 2, 3, 6, 7, ..., 34, 35 |
| LnOffsets.OffsetsInRange | scripts/tests/validate_layernorm.py:24-30 | every offset is a multiple of 128 no larger than 2176 |
| LnOffsets.OffsetsDistinct | scripts/tests/validate_layernorm.py:24-30 | distinct selectors have distinct offsets |
| LnOffsets.BetaFollowsGamma | scripts/tests/validate_layernorm.py:219-221 | each gamma selector's beta is the next selector, 128 bytes further |
| LnOffsets.SlicesDisjoint | scripts/tests/validate_layernorm.py:219-223 | the 128-byte slices of two selectors lie inside the 2304-byte file and do not overlap |
| Matvec.Mask24 | scripts/tests/validate_matvec.py:65-67 | the 24-bit wrap lands in the signed 24-bit range, keeps the value modulo 2^24 and leaves in-range values alone |
| Matvec.Mask24IsWrap | scripts/tests/validate_matvec.py:65-67 | it is the generic 24-bit two's-complement wrap |
| Matvec.MatvecSpec | scripts/tests/validate_matvec.py:69-79 | there are 128 outputs, each in int8 range |
| Matvec.GoldenMatvec | scripts/tests/validate_matvec.py:72-79 | the nested loops compute that specification |
| Matvec.RowAcc | scripts/tests/validate_matvec.py:74-77 | defines the 24-bit accumulator of one row after its first n columns. RowAccExact states its value |
| Matvec.RowAccExact | scripts/tests/validate_matvec.py:74-77 | the wrapped accumulator equals the plain row sum, since a row of 128 int8 values never leaves 24 bits |
| Matvec.OutputIsRowSumShifted | scripts/tests/validate_matvec.py:78 | each output is the row sum shifted right by 7, already in int8 range, so the clamp never bites |
| Matvec.OutputReadsOwnRow | scripts/tests/validate_matvec.py:73-78 | an output depends only on its own row of the matrix |
| Matvec.FirstNamed | scripts/tests/validate_matvec.py:70 | `next(...)` finds the first tensor with that name, or none when no tensor carries it |
| Matvec.FirstNamedIsFirst | scripts/tests/validate_matvec.py:70 | the first carrier of the name is the one found |
| Matvec.GoldenMatvecOfTensors | scripts/tests/validate_matvec.py:69-79 | golden_matvec over a tensor list computes its specification |
| Matvec.MatvecOfTensorsPicks | scripts/tests/validate_matvec.py:70-79 | the product uses the first `blocks.0.attn.proj.weight` tensor |
| Matvec.MatvecOfTensorsMissing | scripts/tests/validate_matvec.py:70 | without that tensor golden_matvec fails (StopIteration) |
| Requant.GoldenRequant | scripts/tests/validate_requant.py:28-41 | the result is a byte whose signed reading is the shifted product saturated to int8 |
| Requant.Product | scripts/tests/validate_requant.py:29-36 | defines `product`: acc * scale wrapped to prod_w signed bits |
| Requant.Shifted | scripts/tests/validate_requant.py:38 | defines `shifted = product >> shift`. ShiftIsFloor states its meaning |
| Requant.ProductExact | scripts/tests/validate_requant.py:31-36 | for operands of the declared widths the prod_w-bit wrap leaves `acc * scale` unchanged |
| Requant.ShiftIsFloor | scripts/tests/validate_requant.py:38 | the shift is floor division of the product by 2^shift |
| Requant.SaturatesHigh | scripts/tests/validate_requant.py:40-41 | a product of at least 128 * 2^shift gives 0x7F |
| Requant.SaturatesLow | scripts/tests/validate_requant.py:40-41 | a product below -128 * 2^shift gives 0x80 |
| Requant.ZeroGivesZero | scripts/tests/validate_requant.py:28-41 | a zero accumulator or scale gives 0 |
| Requant.MonotoneInAcc | scripts/tests/validate_requant.py:28-41 | for in-range operands the signed result is monotone in the accumulator |
| Requant.ShiftOnlyScale | scripts/tests/validate_requant.py:28-41 | a scale of 2^(scale_w-1) makes requantisation a plain saturated shift |
| Requant.ShiftOnlyDutA | scripts/tests/validate_requant.py:17 | for DUT A (24, 16, 22) a scale of 32768 gives `clamp(acc >> 7)` |
| Requant.ShiftOnlyDutB | scripts/tests/validate_requant.py:18 | for DUT B (19, 16, 19) a scale of 32768 gives `clamp(acc >> 4)` |
| Embedding.GoldenByte | scripts/tests/validate_embedding.py:56-60 | the output is a byte |
| Embedding.ExpectedRow | scripts/tests/validate_embedding.py:127-140 | the expected row exists exactly when both table rows lie inside their memories, and it has 128 bytes |
| Embedding.NineBitSum | scripts/tests/validate_embedding.py:59 | the sum of two int8 values fits the 9-bit register |
| Embedding.GoldenByteIsMean | scripts/tests/validate_embedding.py:56-60 | the signed output is the floor of the mean of the two signed inputs |
| Embedding.GoldenByteSymmetric | scripts/tests/validate_embedding.py:56-60 | token and position weights can be swapped |
| Embedding.GoldenByteIdempotent | scripts/tests/validate_embedding.py:56-60 | equal weights give that weight |
| Embedding.GoldenByteBetween | scripts/tests/validate_embedding.py:56-60 | the signed output lies between the two signed inputs |
| Embedding.RowAddr | scripts/tests/validate_embedding.py:127-128 | defines the table address `row * DIM + i`. RowAddrLayout and RowAddrInjective are its properties |
| Embedding.RowAddrLayout | scripts/tests/validate_embedding.py:127-128 | element i of row r is at r * 128 + i, within row r |
| Embedding.RowAddrInjective | scripts/tests/validate_embedding.py:127-128 | distinct (row, element) pairs have distinct addresses |
| Embedding.ExpectedRowEntry | scripts/tests/validate_embedding.py:133-140 | expected element i is the floor-mean of the token and position bytes at that element |
| Gelu.GoldenGelu | scripts/tests/validate_gelu.py:96 | the expectation exists exactly when the address is inside the table, and is that entry |
| Gelu.GeluAddr | scripts/tests/validate_gelu.py:96 | defines the table address `layer * 256 + in_byte`. GeluAddrLayout and GeluAddrInjective are its properties |
| Gelu.GeluAddrLayout | scripts/tests/validate_gelu.py:96 | layer and input byte are the quotient and remainder of the address by 256, inside the 1024 entries |
| Gelu.GeluAddrInjective | scripts/tests/validate_gelu.py:96 | distinct (layer, input) pairs read distinct entries |
| Gelu.GoldenGeluReadsOneEntry | scripts/tests/validate_gelu.py:96 | the expectation depends only on its own table entry |
| SoftmaxStages.BipartiteExp | scripts/tests/validate_softmax.py:43-54 | the result is in [0, 32768], and 0 for distances at or past the clip |
| SoftmaxStages.BipartiteFields | scripts/tests/validate_softmax.py:46-49 | the three fields are the distance's 5-, 3- and 3-bit digits; the addresses are `d / 8` and `(d / 64) * 8 + d % 8` |
| SoftmaxStages.BipartiteExpInRange | scripts/tests/validate_softmax.py:49-54 | below the clip the result is the clamped sum of the two table entries |
| SoftmaxStages.LeadingOne24Bounds | scripts/tests/validate_softmax.py:58-65 | a non-zero 24-bit value's leading one k has 2^k <= v < 2^(k+1), k < 24 |
| SoftmaxStages.Lod24 | scripts/tests/validate_softmax.py:58-65 | the bit loop finds the leading one (0 for zero) |
| SoftmaxStages.LodMantissa | scripts/tests/validate_softmax.py:69-73 | the mantissa is a 4-bit value |
| SoftmaxStages.LodMantissaNormalises | scripts/tests/validate_softmax.py:69-73 | shifting the value so its leading one is bit 4 gives 16 + mantissa |
| SoftmaxStages.LnOffset | scripts/tests/validate_softmax.py:97-111 | the offset is in [0, 2048], and 2048 for a zero sum |
| SoftmaxStages.LnOffsetNonZeroSum | scripts/tests/validate_softmax.py:99-111 | for a non-zero 24-bit sum the offset is at most 799 |
| SoftmaxStages.ClipDistance | scripts/tests/validate_softmax.py:84-90 | a non-negative distance is kept below 16.0 (Q4.7) and clipped to 2048 otherwise |
| SoftmaxStages.NormDistance | scripts/tests/validate_softmax.py:116-128 | the normalised distance is distance plus offset, clipped to 2048 |
| SoftmaxStages.NormDistanceBounded | scripts/tests/validate_softmax.py:116-128 | for non-negative operands it lies in [0, 2048] |
| SoftmaxStages.SeqMax | scripts/tests/validate_softmax.py:78 | `max(inputs)` bounds every input |
| SoftmaxStages.SeqMaxAttained | scripts/tests/validate_softmax.py:78 | and is one of them |
| SoftmaxStages.SumExp | scripts/tests/validate_softmax.py:83-93 | the accumulated sum is non-negative |
| SoftmaxStages.SumAcc | scripts/tests/validate_softmax.py:94 | the saturated sum fits 24 bits |
| SoftmaxStages.SoftmaxSpec | scripts/tests/validate_softmax.py:77-132 | one output per input, each in [0, 32768] |
| Softmax.GoldenSoftmax | scripts/tests/validate_softmax.py:77-132 | the four phases compute the specification |
| Softmax.ExpAccPass | scripts/tests/validate_softmax.py:81-93 | the accumulate pass yields each input's exp and their sum |
| Softmax.LnSumPass | scripts/tests/validate_softmax.py:96-111 | the log-sum phase yields the offset of the sum |
| Softmax.NormPass | scripts/tests/validate_softmax.py:114-130 | the normalise pass yields each input's output |
| Softmax.SoftmaxMasksFarInputs | scripts/tests/validate_softmax.py:119-126 | an input 16.0 or more below the maximum gets output 0 |
| Softmax.SoftmaxZeroSum | scripts/tests/validate_softmax.py:97-98 | a zero sum makes every output 0 |
| Softmax.SoftmaxEqualInputs | scripts/tests/validate_softmax.py:114-130 | equal inputs get equal outputs |
| Softmax.ExpAtZeroDistance | scripts/tests/validate_softmax.py:84-91 | the maximum's exp is the clamped sum of the two tables' first entries |
| Softmax.SoftmaxAtMaximum | scripts/tests/validate_softmax.py:114-130 | the maximum's output is the exp of the log-sum offset itself |
| Softmax.SumExpAtLeastEach | scripts/tests/validate_softmax.py:93 | the sum is at least each term |
| Softmax.SoftmaxSumPositive | scripts/tests/validate_softmax.py:93-111 | with a positive exp at distance 0 the sum is positive and the offset at most 799 |
| SoftmaxLuts.DecodeEncodeEntry | scripts/gen_softmax_luts.py:175-176 | a signed entry written with the +65536 offset is a 16-bit word that the loader decodes back to it |
| SoftmaxLuts.EncodeDecodeEntry | scripts/tests/validate_softmax.py:36-37 | every 16-bit word read as signed is re-encoded to itself |
| SoftmaxLuts.LutLines | scripts/gen_softmax_luts.py:166-177 | the writer emits one line per entry |
| SoftmaxLuts.WrittenLineEntry | scripts/gen_softmax_luts.py:169-177 | each written line reads back as its value |
| SoftmaxLuts.ReadLine | scripts/tests/validate_softmax.py:32-38 | one line is skipped if blank, rejected if not hex, or decoded with the signed rule |
| SoftmaxLuts.LoadLutSpec | scripts/tests/validate_softmax.py:28-39 | defines load_lut on a file's text: blank lines skipped, every other line read as hex with the signed rule, failing on a malformed line. LoadLutOfWritten is its round trip |
| SoftmaxLuts.LoadLut | scripts/tests/validate_softmax.py:28-39 | load_lut returns the entries of the file's non-blank lines or fails on a malformed one |
| SoftmaxLuts.LoadLutOfWritten | scripts/gen_softmax_luts.py:166-177 | loading a file the generator wrote returns its table (unsigned or signed) |
| InvSqrt.Lod | scripts/tests/validate_inv_sqrt.py:33-36 | the leading-one position is below the width |
| InvSqrt.LodBrackets | scripts/tests/validate_inv_sqrt.py:33-36 | for an input of the width it brackets the input between 2^k and 2^(k+1) |
| InvSqrt.NormValue | scripts/tests/validate_inv_sqrt.py:39-40 | defines `d_norm = (d << norm_shift) & ((1 << D_W) - 1)`. NormValueExact states its value |
| InvSqrt.NormValueExact | scripts/tests/validate_inv_sqrt.py:39-40 | the normalising shift loses nothing and puts the leading one at bit dw-1 |
| InvSqrt.Mantissa | scripts/tests/validate_inv_sqrt.py:41 | the mantissa is 8 bits |
| InvSqrt.Addr | scripts/tests/validate_inv_sqrt.py:44 | the address is the leading-one parity times 256 plus the mantissa, below 512 |
| InvSqrt.InvSqrtSpec | scripts/tests/validate_inv_sqrt.py:29-30 | zero gives 0xFFFF |
| InvSqrt.GoldenInvSqrt | scripts/tests/validate_inv_sqrt.py:27-49 | the LOD loop and the rest compute the specification |
| InvSqrt.ResultAtMostEntry | scripts/tests/validate_inv_sqrt.py:45-48 | the result is between 0 and the addressed table entry |
| InvSqrt.ResultIs16Bit | scripts/tests/validate_inv_sqrt.py:27-49 | with a 16-bit table the result is 16 bits |
| InvSqrt.PowerOfTwoAddr | scripts/tests/validate_inv_sqrt.py:33-44 | 2^k has leading one k, mantissa 0 and address (k mod 2) * 256 |
| InvSqrt.InvSqrtOfFour | scripts/tests/validate_inv_sqrt.py:27-49 | an input of 4 gives entry 0 halved |
| InvSqrt.QuadrupleInput | scripts/tests/validate_inv_sqrt.py:27-49 | quadrupling the input keeps the address and shifts the entry one more place, as 1/sqrt halves |
| LayerNorm.Centered | scripts/tests/validate_layernorm.py:100 | each centred value is the input minus the mean |
| LayerNorm.MeanBrackets | scripts/tests/validate_layernorm.py:96-97 | the mean is the floor of the sum over 128 |
| LayerNorm.IsqrtInputBrackets | scripts/tests/validate_layernorm.py:101-104 | the square-root input is the floor of the variance accumulator over 128 |
| LayerNorm.LayerNormSpec | scripts/tests/validate_layernorm.py:94-130 | 128 outputs, each in int8 range |
| LayerNorm.GoldenLayerNorm | scripts/tests/validate_layernorm.py:94-130 | the three passes compute the specification |
| LayerNorm.NormOutput | scripts/tests/validate_layernorm.py:115-127 | defines one output of pass 3: the 33-bit product, the rounded 18-bit biased sum and the int8 clamp. NormOutputOfZero is its property |
| LayerNorm.NormElement | scripts/tests/validate_layernorm.py:111-128 | one element of pass 3 is the specified output |
| LayerNorm.WrapLiteral33 | scripts/tests/validate_layernorm.py:117-119 | the mask-and-subtract is the 33-bit signed wrap |
| LayerNorm.WrapLiteral18 | scripts/tests/validate_layernorm.py:123-125 | the mask-and-subtract is the 18-bit signed wrap |
| LayerNorm.PassThreeWrapsExact | scripts/tests/validate_layernorm.py:115-125 | values that fit the registers pass the wraps unchanged |
| LayerNorm.NormOutputOfZero | scripts/tests/validate_layernorm.py:111-127 | a zero centred value with the zero-input reciprocal gives beta |
| LayerNorm.ConstantInput | scripts/tests/validate_layernorm.py:36-37 | a constant input has that mean, centres to zero, and every output is beta |

## Left out

- **Floating point.** The float scale, the dequantisation `data * scale` in load_weights_int8, quantize_tensor, the learning-rate schedule and the loss estimate use floats. The scale is carried as its 32-bit word.
- **Ideal references.** The float reference models (ideal_byte and the like) and the generators of the exp, GELU and reciprocal-square-root tables (table optimisation and evaluation) are left out. Only the softmax tables' `.hex` writer is modelled.
- **Text loaders.** The `.hex` loaders of the embedding, GELU, LayerNorm and reciprocal-square-root validators, including their `//` comment skipping, are left out: those golden models take their tables as sequences.
- **Output-only code.** The xsim log scrapers, the comparison and reporting loops of every validator, printing, `sys.exit` and `os.makedirs` are left out. Only the expected-value side of each comparison is modelled.
- **Extractor text files.** The extractor's `manifest.txt` and `weight_scales.vh` are formatted text of a float and of parameter names. Only `verilog_param_name` is modelled.
- **Validators not modelled.** The KV-cache validator and the inference script are not part of this model.
- **Datasets.** `load_data`'s 90/10 split and negative or out-of-range `ByteDataset` indices, which Python's slices wrap or truncate, are left out (indices are naturals below `len`). The tensor conversion in `ByteDataset.__init__` is left out too.
- **Files.** Files are whole byte or character sequences. `for line in f` is modelled as a split on `"\n"`, so `"\r"` and the other line-boundary characters Python also honours are not modelled.
- **Names.** ASCII and UTF-8 decoding are validity predicates on the name bytes. Only ASCII names become text, so `str.upper()` is modelled on ASCII letters only.
- HexText.ParseHex: rejects a sign, a `0x` prefix, underscores and non-ASCII digits, all of which Python's `int(s, 16)` accepts. No file the scripts write contains them.
- ExtractWeights.VerifyHexFiles: uses the corrected reading of an empty file, `ExtractWeights.ReadLines`; the reading as written is `ReadLinesAsWritten`, see Findings.
- SoftmaxStages.SoftmaxSpec: requires a non-empty input, because `max([])` raises. It also requires tables of exactly 256 entries, the length of the loaded files. Every address stays below 256, so a longer table would give the same outputs.
- InvSqrt.GoldenInvSqrt: for a non-zero input, requires the table to hold the entry at the address that input reads. The source raises IndexError when the address is at or past the table's end.
- LayerNorm.GoldenLayerNorm: requires at least 128 inputs and at least 128 gamma and beta bytes. When the variance input is non-zero, it also requires the table to hold the entry that input reads. Anything shorter makes the source raise IndexError.
- Matvec.GoldenMatvec: requires at least 128 x 128 weight bytes. `Matvec.GoldenMatvecOfTensors` models a shorter proj tensor, on which the source raises IndexError, as failure.
- Requant.GoldenRequant: requires prod_w >= 1, since a zero width makes the source's `1 << (prod_w - 1)` raise.
- Train.ExportWeightsInt8: requires every tensor to be exportable: the name length, ndim, every dimension and the scale word below 2^32. A larger field makes `struct.pack("<I", …)` raise struct.error, which the model does not represent. No tensor of this model comes near those limits.
- Train.Len: returns `len(data) - ctx` even when it is negative. Python's `len()` then raises ValueError, which the model does not represent.

## Findings

| source | as written | input that shows it | evidently intended | confidence | as-written member | corrected member |
|---|---|---|---|---|---|---|
| scripts/extract_weights.py:111-115 | the re-read splits the stripped file text on newlines; an empty text gives `[""]`, one line | a tensor whose shape contains a 0, so its data and its `.hex` dump are empty: one line against size 0 reports VERIFY FAIL and the run exits | an empty dump reads back as zero lines and verifies | not executed | ExtractWeights.AsWrittenRejectsEmpty | ExtractWeights.WrittenFileVerifies |
