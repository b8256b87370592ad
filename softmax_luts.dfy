/**
 * The two exp tables as `.hex` files: the writer in gen_softmax_luts.py
 * (one `{val:04x}` line per entry, negatives of the signed correction table
 * offset by 65536) and `load_lut` in validate_softmax.py, which reads them back.
 */
module SoftmaxLuts {
  import opened Wrappers
  import opened HexText

  /** load_lut's signed decoding: a 16-bit word at or above 32768 is negative. */
  function DecodeEntry(val: nat, signed: bool): int
  {
    if signed && val >= 32768 then val - 65536 else val
  }

  /** The writer's two's-complement step: `val + 65536` for a negative entry. */
  function EncodeEntry(val: int): int
  {
    if val < 0 then val + 65536 else val
  }

  /** An int16 entry is written as a 16-bit word and decoded back to itself. */
  lemma DecodeEncodeEntry(v: int)
    requires -32768 <= v < 32768
    ensures 0 <= EncodeEntry(v) < 65536
    ensures DecodeEntry(EncodeEntry(v), true) == v
  {
  }

  /** Every 16-bit word decodes into int16 range and re-encodes to itself. */
  lemma EncodeDecodeEntry(w: nat)
    requires w < 65536
    ensures -32768 <= DecodeEntry(w, true) < 32768
    ensures EncodeEntry(DecodeEntry(w, true)) == w
  {
  }

  /** What the writer can write: non-negative entries unsigned, int16 entries signed. */
  predicate Writable(vals: seq<int>, signed: bool)
  {
    forall i :: 0 <= i < |vals| ==> if signed then -32768 <= vals[i] < 32768 else vals[i] >= 0
  }

  function WrittenWord(v: int, signed: bool): nat
    requires if signed then -32768 <= v < 32768 else v >= 0
  {
    if signed then EncodeEntry(v) else v
  }

  function LutLines(vals: seq<int>, signed: bool): (lines: seq<string>)
    requires Writable(vals, signed)
    ensures |lines| == |vals|
  {
    if vals == [] then [] else [FormatHex(WrittenWord(vals[0], signed), 4)] + LutLines(vals[1..], signed)
  }

  /** The file the table generator writes. */
  function LutText(vals: seq<int>, signed: bool): string
    requires Writable(vals, signed)
  {
    Terminated(LutLines(vals, signed))
  }

  /** Prefix a successful result with a list of entries. */
  function PrependAll(acc: seq<int>, o: Option<seq<int>>): (r: Option<seq<int>>)
    ensures r.Some? <==> o.Some?
  {
    if o.Some? then Some(acc + o.value) else None
  }

  /** What load_lut makes of one line. */
  datatype LineValue = Blank | Malformed | Entry(value: int)

  /** One line: stripped, skipped when empty, else `int(s, 16)` and the signed decoding. */
  function LineEntry(line: string, signed: bool): LineValue
  {
    if Strip(line) == [] then Blank
    else if ParseHex(Strip(line)).None? then Malformed
    else Entry(DecodeEntry(ParseHex(Strip(line)).value, signed))
  }

  /**
   * load_lut over the lines of the file: blank lines are skipped and the first
   * malformed line raises ValueError (None).
   */
  function LutEntries(lines: seq<string>, signed: bool): Option<seq<int>>
  {
    if lines == [] then Some([])
    else match LineEntry(lines[0], signed)
      case Blank => LutEntries(lines[1..], signed)
      case Malformed => None
      case Entry(v) => PrependAll([v], LutEntries(lines[1..], signed))
  }

  /** load_lut on a file's text. */
  function LoadLutSpec(text: string, signed: bool): Option<seq<int>>
  {
    LutEntries(Split(text, '\n'), signed)
  }

  /** load_lut: the loop over the file's lines, appending to `entries`. */
  method LoadLut(text: string, signed: bool) returns (entries: Option<seq<int>>)
    ensures entries == LoadLutSpec(text, signed)
  {
    var lines := Split(text, '\n');
    ghost var vs := LineValues(lines, signed);
    LutEntriesIsFold(lines, signed);
    var acc: seq<int> := [];
    var i := 0;
    PrependNothing(FoldValues(vs));
    assert vs[0..] == vs;
    while i < |lines|
      invariant 0 <= i <= |lines|
      invariant FoldValues(vs) == PrependAll(acc, FoldValues(vs[i..]))
    {
      var v := ReadLine(lines[i], signed);
      FoldValuesAt(vs, i);
      match v {
        case Blank =>
        case Malformed =>
          return None;
        case Entry(val) =>
          PrependAllTwice(acc, [val], FoldValues(vs[i + 1..]));
          acc := acc + [val];
      }
      i := i + 1;
    }
    assert vs[i..] == [];
    assert acc + [] == acc;
    return Some(acc);
  }

  /** One pass of load_lut's loop: strip, skip a blank line, else `int(s, 16)` and the signed decoding. */
  method ReadLine(line: string, signed: bool) returns (v: LineValue)
    ensures v == LineEntry(line, signed)
  {
    var s := Strip(line);
    if s == [] {
      return Blank;
    }
    var parsed := ParseHex(s);
    if parsed.None? {
      return Malformed;
    }
    var val: int := parsed.value;
    if signed && val >= 32768 {
      val := val - 65536;
    }
    return Entry(val);
  }

  /** The fold from position i on is that line's value in front of the rest. */
  lemma FoldValuesAt(vs: seq<LineValue>, i: int)
    requires 0 <= i < |vs|
    ensures FoldValues(vs[i..]) == match vs[i]
      case Blank => FoldValues(vs[i + 1..])
      case Malformed => None
      case Entry(v) => PrependAll([v], FoldValues(vs[i + 1..]))
  {
    assert vs[i..][0] == vs[i];
    assert vs[i..][1..] == vs[i + 1..];
  }

  lemma PrependNothing(o: Option<seq<int>>)
    ensures PrependAll([], o) == o
  {
    if o.Some? {
      assert [] + o.value == o.value;
    }
  }

  lemma PrependAllTwice(a: seq<int>, b: seq<int>, o: Option<seq<int>>)
    ensures PrependAll(a, PrependAll(b, o)) == PrependAll(a + b, o)
  {
    if o.Some? {
      assert a + (b + o.value) == (a + b) + o.value;
    }
  }

  /** Every written line is a four-digit hex word free of newlines. */
  lemma {:induction false} LutLinesShape(vals: seq<int>, signed: bool)
    requires Writable(vals, signed)
    ensures LineFree(LutLines(vals, signed))
  {
    if vals != [] {
      FormatHexLowercase(WrittenWord(vals[0], signed), 4);
      LutLinesShape(vals[1..], signed);
    }
  }

  /** A written line reads back as the entry it was written from. */
  lemma WrittenLineEntry(v: int, signed: bool)
    requires if signed then -32768 <= v < 32768 else v >= 0
    ensures LineEntry(FormatHex(WrittenWord(v, signed), 4), signed) == Entry(v)
  {
    var w := WrittenWord(v, signed);
    var line := FormatHex(w, 4);
    ParseFormatHex(w, 4);
    assert |line| >= 1 && !IsSpace(line[0]) && !IsSpace(line[|line| - 1]);
    StripFixed(line);
  }

  /** The i-th written line is the word of the i-th value. */
  lemma {:induction false} LutLinesAt(vals: seq<int>, signed: bool)
    requires Writable(vals, signed)
    ensures forall i :: 0 <= i < |vals| ==> LutLines(vals, signed)[i] == FormatHex(WrittenWord(vals[i], signed), 4)
  {
    if vals != [] {
      LutLinesAt(vals[1..], signed);
      assert forall i :: 1 <= i < |vals| ==> vals[1..][i - 1] == vals[i];
    }
  }

  /** What each line makes, in order. */
  function LineValues(lines: seq<string>, signed: bool): (vs: seq<LineValue>)
    ensures |vs| == |lines|
    ensures forall i :: 0 <= i < |lines| ==> vs[i] == LineEntry(lines[i], signed)
  {
    seq(|lines|, i requires 0 <= i < |lines| => LineEntry(lines[i], signed))
  }

  /** The load loop as a fold over what the lines make. */
  function FoldValues(vs: seq<LineValue>): Option<seq<int>>
  {
    if vs == [] then Some([])
    else match vs[0]
      case Blank => FoldValues(vs[1..])
      case Malformed => None
      case Entry(v) => PrependAll([v], FoldValues(vs[1..]))
  }

  lemma {:induction false} LutEntriesIsFold(lines: seq<string>, signed: bool)
    ensures LutEntries(lines, signed) == FoldValues(LineValues(lines, signed))
  {
    if lines != [] {
      LutEntriesIsFold(lines[1..], signed);
      assert LineValues(lines, signed)[1..] == LineValues(lines[1..], signed);
    }
  }

  /** Entries holding the values, then a blank, fold to the values. */
  lemma {:induction false} FoldEntries(vs: seq<LineValue>, vals: seq<int>)
    requires |vs| == |vals| + 1 && vs[|vals|] == Blank
    requires forall i :: 0 <= i < |vals| ==> vs[i] == Entry(vals[i])
    ensures FoldValues(vs) == Some(vals)
  {
    if vals == [] {
      assert vs[1..] == [];
    } else {
      FoldEntries(vs[1..], vals[1..]);
      assert [vals[0]] + vals[1..] == vals;
    }
  }

  lemma LutEntriesOfWritten(vals: seq<int>, signed: bool)
    requires Writable(vals, signed)
    ensures LutEntries(LutLines(vals, signed) + [""], signed) == Some(vals)
  {
    var lines := LutLines(vals, signed) + [""];
    LutLinesAt(vals, signed);
    var vs := LineValues(lines, signed);
    forall i | 0 <= i < |vals|
      ensures vs[i] == Entry(vals[i])
    {
      assert lines[i] == LutLines(vals, signed)[i];
      WrittenLineEntry(vals[i], signed);
    }
    assert lines[|vals|] == "";
    assert Strip("") == "";
    FoldEntries(vs, vals);
    LutEntriesIsFold(lines, signed);
  }

  /**
   * Round trip: load_lut reads back exactly what the table generator wrote,
   * in order, for the unsigned and the signed table alike.
   */
  lemma LoadLutOfWritten(vals: seq<int>, signed: bool)
    requires Writable(vals, signed)
    ensures LoadLutSpec(LutText(vals, signed), signed) == Some(vals)
  {
    LutLinesShape(vals, signed);
    SplitTerminated(LutLines(vals, signed));
    LutEntriesOfWritten(vals, signed);
  }
}
