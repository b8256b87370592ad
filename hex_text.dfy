/**
 * The text side of the `.hex` memory files the scripts write and read back:
 * Python's `f"{v:0{w}x}"`, `int(s, 16)`, `str.strip()` and `str.split("\n")`,
 * and the line-per-value file layout that `$readmemh` consumes.
 */
module HexText {
  import opened Wrappers

  // ---------------------------------------------------------------------
  // Digits
  // ---------------------------------------------------------------------

  /** The lowercase digit that Python's `x` format writes for 0 <= d < 16. */
  function HexDigitChar(d: int): (c: char)
    requires 0 <= d < 16
    ensures IsHexDigit(c) && DigitOf(c) == d
    ensures '0' <= c <= '9' || 'a' <= c <= 'f'
  {
    if d < 10 then (48 + d) as char else (87 + d) as char
  }

  /** A digit `int(s, 16)` accepts, in either case. */
  predicate IsHexDigit(c: char)
  {
    ('0' <= c <= '9') || ('a' <= c <= 'f') || ('A' <= c <= 'F')
  }

  function DigitOf(c: char): (d: nat)
    requires IsHexDigit(c)
    ensures d < 16
  {
    if '0' <= c <= '9' then c as int - 48
    else if 'a' <= c <= 'f' then c as int - 87
    else c as int - 55
  }

  predicate AllHex(s: string)
  {
    forall i :: 0 <= i < |s| ==> IsHexDigit(s[i])
  }

  /** The value of a string of hex digits, most significant first. */
  function HexValueOf(s: string): nat
    requires AllHex(s)
  {
    if s == [] then 0 else 16 * HexValueOf(s[..|s| - 1]) + DigitOf(s[|s| - 1])
  }

  function Pow16(n: nat): (r: nat)
    ensures r >= 1
  {
    if n == 0 then 1 else 16 * Pow16(n - 1)
  }

  // ---------------------------------------------------------------------
  // Formatting: f"{v:0{w}x}"
  // ---------------------------------------------------------------------

  /** The shortest lowercase hex spelling of v ("0" for zero). */
  function MinimalHex(v: nat): (s: string)
    ensures |s| >= 1 && AllHex(s)
  {
    if v < 16 then [HexDigitChar(v)] else MinimalHex(v / 16) + [HexDigitChar(v % 16)]
  }

  function Zeros(n: nat): (s: string)
    ensures |s| == n && AllHex(s)
  {
    seq(n, _ => '0')
  }

  /** `f"{v:0{w}x}"`: v in lowercase hex, left-padded with zeros to at least w digits. */
  function FormatHex(v: nat, w: nat): (s: string)
    ensures AllHex(s)
  {
    if |MinimalHex(v)| < w then Zeros(w - |MinimalHex(v)|) + MinimalHex(v) else MinimalHex(v)
  }

  lemma {:induction false} MinimalHexValue(v: nat)
    ensures HexValueOf(MinimalHex(v)) == v
  {
    if v >= 16 {
      MinimalHexValue(v / 16);
      var s := MinimalHex(v);
      assert s[..|s| - 1] == MinimalHex(v / 16);
    }
  }

  /** v has at most n hex digits exactly when v < 16^n. */
  lemma {:induction false} MinimalHexLength(v: nat, n: nat)
    requires n >= 1 && v < Pow16(n)
    ensures |MinimalHex(v)| <= n
  {
    if v >= 16 {
      assert n >= 2;
      assert v / 16 < Pow16(n - 1);
      MinimalHexLength(v / 16, n - 1);
    }
  }

  lemma {:induction false} LeadingZerosValue(n: nat, s: string)
    requires AllHex(s)
    ensures HexValueOf(Zeros(n) + s) == HexValueOf(s)
    decreases |s|
  {
    if s == [] {
      assert Zeros(n) + s == Zeros(n);
      ZerosValue(n);
    } else {
      var s' := s[..|s| - 1];
      LeadingZerosValue(n, s');
      assert (Zeros(n) + s)[..|Zeros(n) + s| - 1] == Zeros(n) + s';
    }
  }

  lemma {:induction false} ZerosValue(n: nat)
    ensures HexValueOf(Zeros(n)) == 0
  {
    if n > 0 {
      ZerosValue(n - 1);
      assert Zeros(n)[..n - 1] == Zeros(n - 1);
    }
  }

  /** The formatted digits denote v: padding adds only leading zeros. */
  lemma FormatHexValue(v: nat, w: nat)
    ensures HexValueOf(FormatHex(v, w)) == v
  {
    if |MinimalHex(v)| < w {
      PaddedHexValue(v, w);
    } else {
      MinimalHexValue(v);
    }
  }

  lemma PaddedHexValue(v: nat, w: nat)
    requires |MinimalHex(v)| < w
    ensures HexValueOf(FormatHex(v, w)) == v
  {
    var m := MinimalHex(v);
    var s := Zeros(w - |m|) + m;
    MinimalHexValue(v);
    LeadingZerosValue(w - |m|, m);
    assert FormatHex(v, w) == s;
  }

  /** A value below 16^w is written with exactly w digits. */
  lemma FormatHexWidth(v: nat, w: nat)
    requires w >= 1 && v < Pow16(w)
    ensures |FormatHex(v, w)| == w
  {
    MinimalHexLength(v, w);
  }

  /** Every formatted character is a lowercase hex digit. */
  lemma {:induction false} FormatHexLowercase(v: nat, w: nat)
    ensures forall i :: 0 <= i < |FormatHex(v, w)| ==>
      '0' <= FormatHex(v, w)[i] <= '9' || 'a' <= FormatHex(v, w)[i] <= 'f'
  {
    MinimalHexLowercase(v);
  }

  lemma {:induction false} MinimalHexLowercase(v: nat)
    ensures forall i :: 0 <= i < |MinimalHex(v)| ==>
      '0' <= MinimalHex(v)[i] <= '9' || 'a' <= MinimalHex(v)[i] <= 'f'
  {
    if v >= 16 {
      MinimalHexLowercase(v / 16);
    }
  }

  // ---------------------------------------------------------------------
  // str.strip()
  // ---------------------------------------------------------------------

  /**
   * Python's str.isspace(), by code point: \t \n \v \f \r, the separators
   * 0x1C-0x1F, space, NEL, NBSP and the Unicode space characters.
   */
  predicate IsSpace(c: char)
  {
    IsSpaceCode(c as int)
  }

  predicate IsSpaceCode(n: int)
  {
    (9 <= n <= 13) || (28 <= n <= 32) || n == 0x85 || n == 0xA0 || n == 0x1680
    || (0x2000 <= n <= 0x200A) || n == 0x2028 || n == 0x2029 || n == 0x202F
    || n == 0x205F || n == 0x3000
  }

  function StripLeft(s: string): (t: string)
    ensures |t| <= |s|
    ensures t == s[|s| - |t|..]
    ensures t == [] || !IsSpace(t[0])
  {
    if |s| > 0 && IsSpace(s[0]) then StripLeft(s[1..]) else s
  }

  function StripRight(s: string): (t: string)
    ensures |t| <= |s|
    ensures t == s[..|t|]
    ensures t == [] || !IsSpace(t[|t| - 1])
  {
    if |s| > 0 && IsSpace(s[|s| - 1]) then StripRight(s[..|s| - 1]) else s
  }

  /** str.strip(): drop leading and trailing whitespace. */
  function Strip(s: string): string
  {
    StripLeft(StripRight(s))
  }

  /** A string whose first and last characters are not whitespace is its own strip. */
  lemma StripFixed(s: string)
    requires s == [] || (!IsSpace(s[0]) && !IsSpace(s[|s| - 1]))
    ensures Strip(s) == s
  {
  }

  /** Stripping removes every whitespace character at both ends, and nothing else. */
  lemma StripResult(s: string)
    ensures Strip(s) == [] || (!IsSpace(Strip(s)[0]) && !IsSpace(Strip(s)[|Strip(s)| - 1]))
    ensures exists a, b :: 0 <= a <= b <= |s| && Strip(s) == s[a..b]
  {
    var r := StripRight(s);
    var t := StripLeft(r);
    assert t == s[|r| - |t|..|r|];
    if t != [] {
      assert t[|t| - 1] == r[|r| - 1];
    }
  }

  lemma StripAppendSpace(x: string, c: char)
    requires IsSpace(c)
    ensures Strip(x + [c]) == Strip(x)
  {
    assert (x + [c])[..|x|] == x;
  }

  // ---------------------------------------------------------------------
  // int(s, 16)
  // ---------------------------------------------------------------------

  /**
   * `int(s, 16)`: the surrounding whitespace is ignored, the rest must be a
   * non-empty run of hex digits; anything else raises ValueError (None).
   */
  function ParseHex(s: string): (r: Option<nat>)
    ensures r.Some? <==> |Strip(s)| > 0 && AllHex(Strip(s))
  {
    if |Strip(s)| > 0 && AllHex(Strip(s)) then Some(HexValueOf(Strip(s))) else None
  }

  /** Parsing inverts formatting, at every width. */
  lemma ParseFormatHex(v: nat, w: nat)
    ensures ParseHex(FormatHex(v, w)) == Some(v)
  {
    var s := FormatHex(v, w);
    FormatHexValue(v, w);
    assert |s| >= 1;
    assert !IsSpace(s[0]) && !IsSpace(s[|s| - 1]);
    StripFixed(s);
  }

  // ---------------------------------------------------------------------
  // str.split(sep)
  // ---------------------------------------------------------------------

  /** Prefix the first piece with c. */
  function ConsFirst(c: char, parts: seq<string>): (r: seq<string>)
    requires |parts| >= 1
    ensures |r| == |parts|
  {
    [[c] + parts[0]] + parts[1..]
  }

  /** `s.split(sep)` for a one-character separator: always at least one piece. */
  function Split(s: string, sep: char): (parts: seq<string>)
    ensures |parts| >= 1
  {
    if s == [] then [""]
    else if s[0] == sep then [""] + Split(s[1..], sep)
    else ConsFirst(s[0], Split(s[1..], sep))
  }

  predicate NoChar(s: string, c: char)
  {
    forall i :: 0 <= i < |s| ==> s[i] != c
  }

  /** A piece without the separator, then the separator: the first piece is that piece. */
  lemma {:induction false} SplitAfterPiece(l: string, sep: char, rest: string)
    requires NoChar(l, sep)
    ensures Split(l + [sep] + rest, sep) == [l] + Split(rest, sep)
  {
    if l != [] {
      assert (l + [sep] + rest)[1..] == l[1..] + [sep] + rest;
      SplitAfterPiece(l[1..], sep, rest);
      assert [l[0]] + l[1..] == l;
    } else {
      assert l + [sep] + rest == [sep] + rest;
    }
  }

  /** A string without the separator splits into itself. */
  lemma {:induction false} SplitNoSeparator(l: string, sep: char)
    requires NoChar(l, sep)
    ensures Split(l, sep) == [l]
  {
    if l != [] {
      SplitNoSeparator(l[1..], sep);
      assert [l[0]] + l[1..] == l;
    }
  }

  // ---------------------------------------------------------------------
  // Line-per-value files
  // ---------------------------------------------------------------------

  /** The text of a file written one `f.write(line + "\n")` at a time. */
  function Terminated(lines: seq<string>): string
  {
    if lines == [] then "" else lines[0] + "\n" + Terminated(lines[1..])
  }

  /** `"\n".join(lines)` */
  function JoinLines(lines: seq<string>): string
    requires |lines| >= 1
  {
    if |lines| == 1 then lines[0] else lines[0] + "\n" + JoinLines(lines[1..])
  }

  predicate LineFree(lines: seq<string>)
  {
    forall k :: 0 <= k < |lines| ==> NoChar(lines[k], '\n')
  }

  /** Splitting a terminated file gives its lines and one empty trailing piece. */
  lemma {:induction false} SplitTerminated(lines: seq<string>)
    requires LineFree(lines)
    ensures Split(Terminated(lines), '\n') == lines + [""]
  {
    if lines != [] {
      SplitTerminated(lines[1..]);
      SplitAfterPiece(lines[0], '\n', Terminated(lines[1..]));
      assert lines[0] + "\n" + Terminated(lines[1..]) == lines[0] + ['\n'] + Terminated(lines[1..]);
      assert [lines[0]] + (lines[1..] + [""]) == lines + [""];
    }
  }

  /** Splitting joined lines gives the lines back. */
  lemma {:induction false} SplitJoinLines(lines: seq<string>)
    requires |lines| >= 1 && LineFree(lines)
    ensures Split(JoinLines(lines), '\n') == lines
  {
    if |lines| == 1 {
      SplitNoSeparator(lines[0], '\n');
    } else {
      SplitJoinLines(lines[1..]);
      SplitAfterPiece(lines[0], '\n', JoinLines(lines[1..]));
      assert lines[0] + "\n" + JoinLines(lines[1..]) == lines[0] + ['\n'] + JoinLines(lines[1..]);
      assert [lines[0]] + lines[1..] == lines;
    }
  }

  /** A non-empty terminated file is its joined lines plus the final newline. */
  lemma {:induction false} TerminatedIsJoinedPlusNewline(lines: seq<string>)
    requires |lines| >= 1
    ensures Terminated(lines) == JoinLines(lines) + "\n"
  {
    if |lines| > 1 {
      TerminatedIsJoinedPlusNewline(lines[1..]);
    }
  }

  /** The first character of the joined text is the first character of the first line. */
  lemma {:induction false} JoinLinesEnds(lines: seq<string>)
    requires |lines| >= 1 && forall k :: 0 <= k < |lines| ==> |lines[k]| >= 1
    ensures |JoinLines(lines)| >= 1
    ensures JoinLines(lines)[0] == lines[0][0]
    ensures JoinLines(lines)[|JoinLines(lines)| - 1] == lines[|lines| - 1][|lines[|lines| - 1]| - 1]
  {
    if |lines| > 1 {
      JoinLinesEnds(lines[1..]);
    }
  }
}
