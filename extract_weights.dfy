/**
 * extract_weights.py: the names it derives from tensor names (file stems and
 * Verilog parameter names), the `.hex` dumps it writes and reads back, and
 * the combined LayerNorm parameter file.
 */
module ExtractWeights {
  import opened Wrappers
  import opened FixedPoint
  import opened HexText
  import opened WeightFormat
  import BinReader

  // ---------------------------------------------------------------------
  // Names
  // ---------------------------------------------------------------------

  /** `bytes.decode("ascii")` of a name that passed the ASCII check. */
  function AsciiText(name: seq<Byte>): (s: string)
    requires IsAscii(name)
    ensures |s| == |name|
    ensures forall k :: 0 <= k < |s| ==> s[k] as int == name[k]
  {
    seq(|name|, k requires 0 <= k < |name| => name[k] as char)
  }

  /** `s.replace(pat, rep)`: every non-overlapping occurrence, scanning left to right. */
  function Replace(s: string, pat: string, rep: string): string
    requires |pat| > 0
    decreases |s|
  {
    if |s| < |pat| then s
    else if s[..|pat|] == pat then rep + Replace(s[|pat|..], pat, rep)
    else [s[0]] + Replace(s[1..], pat, rep)
  }

  /** sanitize_name: the four rewrites in their order. */
  function SanitizeName(name: string): string
  {
    Replace(Replace(Replace(Replace(name, "ff.net.0.", "ff_up_"), "ff.net.2.", "ff_down_"), "blocks.", "block"), ".", "_")
  }

  /** Replacing a character by a text without it leaves no occurrence of it. */
  lemma {:induction false} ReplaceRemoves(s: string, c: char, rep: string)
    requires NoChar(rep, c)
    ensures NoChar(Replace(s, [c], rep), c)
    decreases |s|
  {
    if |s| >= 1 {
      if s[..1] == [c] {
        ReplaceRemoves(s[1..], c, rep);
      } else {
        assert s[0] != c;
        ReplaceRemoves(s[1..], c, rep);
      }
    }
  }

  /** A pattern holding a character the text lacks never matches: the text is unchanged. */
  lemma {:induction false} ReplaceAbsent(s: string, pat: string, rep: string, c: char)
    requires |pat| > 0 && NoChar(s, c) && c in pat
    ensures Replace(s, pat, rep) == s
    decreases |s|
  {
    if |s| >= |pat| {
      assert s[..|pat|] != pat by {
        var k :| 0 <= k < |pat| && pat[k] == c;
        assert s[..|pat|][k] == s[k];
      }
      ReplaceAbsent(s[1..], pat, rep, c);
      assert [s[0]] + s[1..] == s;
    }
  }

  /** A file stem never contains '.'. */
  lemma SanitizeNameDotFree(name: string)
    ensures NoChar(SanitizeName(name), '.')
  {
    var before := Replace(Replace(Replace(name, "ff.net.0.", "ff_up_"), "ff.net.2.", "ff_down_"), "blocks.", "block");
    ReplaceRemoves(before, '.', "_");
  }

  /** Sanitizing a stem again changes nothing: every pattern contains '.'. */
  lemma SanitizeNameIdempotent(name: string)
    ensures SanitizeName(SanitizeName(name)) == SanitizeName(name)
  {
    var s := SanitizeName(name);
    SanitizeNameDotFree(name);
    assert '.' in "ff.net.0." && '.' in "ff.net.2." && '.' in "blocks." && '.' in ".";
    ReplaceAbsent(s, "ff.net.0.", "ff_up_", '.');
    ReplaceAbsent(s, "ff.net.2.", "ff_down_", '.');
    ReplaceAbsent(s, "blocks.", "block", '.');
    ReplaceAbsent(s, ".", "_", '.');
  }

  /** A match at the front is rewritten and the scan resumes after it. */
  lemma ReplaceAtFront(pat: string, tail: string, rep: string)
    requires |pat| > 0
    ensures Replace(pat + tail, pat, rep) == rep + Replace(tail, pat, rep)
  {
    assert (pat + tail)[..|pat|] == pat;
    assert (pat + tail)[|pat|..] == tail;
  }

  /** No match at the front (position k differs): the first character is copied. */
  lemma ReplaceMiss(s: string, pat: string, rep: string, k: nat)
    requires |pat| > 0 && |s| > 0 && k < |pat|
    requires k < |s| ==> s[k] != pat[k]
    ensures Replace(s, pat, rep) == [s[0]] + Replace(s[1..], pat, rep)
  {
    if |s| >= |pat| {
      assert s[..|pat|][k] != pat[k];
    } else {
      assert [s[0]] + s[1..] == s;
    }
  }

  /** A prefix without the pattern's first character is copied unchanged. */
  lemma {:induction false} ReplaceSkips(a: string, tail: string, pat: string, rep: string)
    requires |pat| > 0 && NoChar(a, pat[0])
    ensures Replace(a + tail, pat, rep) == a + Replace(tail, pat, rep)
    decreases |a|
  {
    if a != [] {
      var s := a + tail;
      assert s[0] == a[0] && s[1..] == a[1..] + tail;
      ReplaceMiss(s, pat, rep, 0);
      ReplaceSkips(a[1..], tail, pat, rep);
      calc {
        Replace(a + tail, pat, rep);
        [a[0]] + Replace(a[1..] + tail, pat, rep);
        [a[0]] + (a[1..] + Replace(tail, pat, rep));
        { assert [a[0]] + a[1..] == a; }
        a + Replace(tail, pat, rep);
      }
    } else {
      assert a + tail == tail;
    }
  }

  /** '.' turned into '_', position by position. */
  function Underscored(s: string): (t: string)
    ensures |t| == |s|
    ensures NoChar(t, '.')
  {
    if s == [] then [] else [if s[0] == '.' then '_' else s[0]] + Underscored(s[1..])
  }

  /** The last rewrite of sanitize_name is Underscored. */
  lemma {:induction false} DotsToUnderscores(s: string)
    ensures Replace(s, ".", "_") == Underscored(s)
    decreases |s|
  {
    if s != [] {
      DotsToUnderscores(s[1..]);
      if s[..1] == "." {
        assert s[0] == '.';
      } else {
        assert s[0] != '.';
      }
    }
  }

  lemma {:induction false} UnderscoredAppend(a: string, b: string)
    ensures Underscored(a + b) == Underscored(a) + Underscored(b)
    decreases |a|
  {
    if a != [] {
      assert (a + b)[1..] == a[1..] + b;
      UnderscoredAppend(a[1..], b);
    } else {
      assert a + b == b;
    }
  }

  lemma {:induction false} UnderscoredNoDot(a: string)
    requires NoChar(a, '.')
    ensures Underscored(a) == a
    decreases |a|
  {
    if a != [] {
      UnderscoredNoDot(a[1..]);
    }
  }

  /** A dot-free piece, a dot, then the rest. */
  lemma UnderscoredAfterPiece(a: string, b: string)
    requires NoChar(a, '.')
    ensures Underscored(a + "." + b) == a + "_" + Underscored(b)
  {
    UnderscoredAppend(a + ".", b);
    UnderscoredAppend(a, ".");
    UnderscoredNoDot(a);
  }

  /** `pat` occurs in `s` starting at position i. */
  predicate MatchesAt(s: string, pat: string, i: nat)
  {
    i + |pat| <= |s| && s[i..i + |pat|] == pat
  }

  /** `pat` occurs nowhere in `s`. */
  predicate Absent(s: string, pat: string)
  {
    forall i: nat :: i <= |s| ==> !MatchesAt(s, pat, i)
  }

  /** A text in which the pattern occurs nowhere is unchanged. */
  lemma {:induction false} ReplaceNoMatch(s: string, pat: string, rep: string)
    requires |pat| > 0 && Absent(s, pat)
    ensures Replace(s, pat, rep) == s
    decreases |s|
  {
    if |s| >= |pat| {
      assert !MatchesAt(s, pat, 0);
      assert s[..|pat|] != pat;
      forall i: nat | i <= |s[1..]|
        ensures !MatchesAt(s[1..], pat, i)
      {
        assert !MatchesAt(s, pat, i + 1);
        if i + |pat| <= |s[1..]| {
          assert s[1..][i..i + |pat|] == s[i + 1..i + 1 + |pat|];
        }
      }
      ReplaceNoMatch(s[1..], pat, rep);
      assert [s[0]] + s[1..] == s;
    }
  }

  /** A front lacking the pattern's first character adds no occurrence. */
  lemma AbsentAfter(a: string, b: string, pat: string)
    requires |pat| > 0 && NoChar(a, pat[0]) && Absent(b, pat)
    ensures Absent(a + b, pat)
  {
    forall i: nat | i <= |a + b|
      ensures !MatchesAt(a + b, pat, i)
    {
      if i + |pat| <= |a + b| {
        if i < |a| {
          assert (a + b)[i..i + |pat|][0] == a[i];
        } else {
          assert !MatchesAt(b, pat, i - |a|);
          assert (a + b)[i..i + |pat|] == b[i - |a|..i - |a| + |pat|];
        }
      }
    }
  }

  /** A text lacking one of the pattern's characters holds no occurrence of it. */
  lemma NoCharAbsent(s: string, pat: string, c: char)
    requires c in pat && NoChar(s, c)
    ensures Absent(s, pat)
  {
    forall i: nat | i <= |s|
      ensures !MatchesAt(s, pat, i)
    {
      if i + |pat| <= |s| {
        var k :| 0 <= k < |pat| && pat[k] == c;
        assert s[i..i + |pat|][k] == s[i + k];
      }
    }
  }

  /** A name holding none of the first three patterns only has its dots rewritten. */
  lemma SanitizeWithoutRewrites(name: string)
    requires Absent(name, "ff.net.0.") && Absent(name, "ff.net.2.") && Absent(name, "blocks.")
    ensures SanitizeName(name) == Underscored(name)
  {
    ReplaceNoMatch(name, "ff.net.0.", "ff_up_");
    ReplaceNoMatch(name, "ff.net.2.", "ff_down_");
    ReplaceNoMatch(name, "blocks.", "block");
    DotsToUnderscores(name);
  }

  /**
   * The top-level names `tok_emb.weight`, `ln_f.weight` and `ln_f.bias`: a
   * module name and a parameter name joined by '.' come out joined by '_'.
   */
  lemma SanitizeTopLevel(module_: string, param: string)
    requires NoChar(module_, '.') && NoChar(param, '.')
    requires var name := module_ + "." + param;
      Absent(name, "ff.net.0.") && Absent(name, "ff.net.2.") && Absent(name, "blocks.")
    ensures SanitizeName(module_ + "." + param) == module_ + "_" + param
  {
    SanitizeWithoutRewrites(module_ + "." + param);
    UnderscoredAfterPiece(module_, param);
    UnderscoredNoDot(param);
  }

  /**
   * A block parameter outside the feed-forward net, such as
   * `blocks.0.attn.qkv.weight` or `blocks.0.ln1.bias`, becomes `block<n>_`
   * followed by its path with '_' for '.'.
   */
  lemma SanitizeBlockParam(layer: string, path: string)
    requires NoChar(layer, '.') && NoChar(layer, 'f') && NoChar(layer, 'b')
    requires Absent(path, "ff.net.0.") && Absent(path, "ff.net.2.") && Absent(path, "blocks.")
    ensures SanitizeName("blocks." + layer + "." + path) == "block" + layer + "_" + Underscored(path)
  {
    var tail := layer + "." + path;
    assert "blocks." + layer + "." + path == "blocks." + tail;
    BlockParamRewrites(layer, path);
    DotsToUnderscores("block" + tail);
    BlockUnderscored(layer, path);
  }

  /** The layer norms of a block: `blocks.0.ln1.bias` becomes `block0_ln1_bias`. */
  lemma SanitizeBlockLayerNorm(layer: string, n: char, param: string)
    requires n == '1' || n == '2'
    requires param == "weight" || param == "bias"
    requires NoChar(layer, '.') && NoChar(layer, 'f') && NoChar(layer, 'b')
    ensures SanitizeName("blocks." + layer + "." + ("ln" + [n] + "." + param))
      == "block" + layer + "_" + ("ln" + [n] + "_" + param)
  {
    var path := "ln" + [n] + "." + param;
    assert NoChar(path, 'f') && NoChar(path, 'k');
    NoCharAbsent(path, "ff.net.0.", 'f');
    NoCharAbsent(path, "ff.net.2.", 'f');
    NoCharAbsent(path, "blocks.", 'k');
    SanitizeBlockParam(layer, path);
    UnderscoredAfterPiece("ln" + [n], param);
    UnderscoredNoDot(param);
  }

  /** The first three rewrites on a block parameter outside the feed-forward net. */
  lemma BlockParamRewrites(layer: string, path: string)
    requires NoChar(layer, 'f') && NoChar(layer, 'b')
    requires Absent(path, "ff.net.0.") && Absent(path, "ff.net.2.") && Absent(path, "blocks.")
    ensures Replace(Replace(Replace("blocks." + (layer + "." + path), "ff.net.0.", "ff_up_"), "ff.net.2.", "ff_down_"), "blocks.", "block")
      == "block" + (layer + "." + path)
  {
    var tail := layer + "." + path;
    LiteralFacts();
    NoCharAppend(layer, ".", 'f');
    AbsentAfter(layer + ".", path, "ff.net.0.");
    AbsentAfter(layer + ".", path, "ff.net.2.");
    assert layer + "." + path == (layer + ".") + path;
    AbsentAfter("blocks.", tail, "ff.net.0.");
    AbsentAfter("blocks.", tail, "ff.net.2.");
    ReplaceNoMatch("blocks." + tail, "ff.net.0.", "ff_up_");
    ReplaceNoMatch("blocks." + tail, "ff.net.2.", "ff_down_");
    BlockPrefixRewrite(layer, path);
  }

  lemma BlockUnderscored(layer: string, path: string)
    requires NoChar(layer, '.')
    ensures Underscored("block" + (layer + "." + path)) == "block" + layer + "_" + Underscored(path)
  {
    LiteralFacts();
    NoCharAppend("block", layer, '.');
    UnderscoredAfterPiece("block" + layer, path);
    assert "block" + (layer + "." + path) == "block" + layer + "." + path;
  }

  /** The characters the rewrites' own texts lack. */
  lemma LiteralFacts()
    ensures NoChar("block", '.') && NoChar("ff_up_", '.') && NoChar("ff_down_", '.')
    ensures NoChar("blocks.", 'f') && NoChar("ff_up_", 'b') && NoChar("ff_down_", 'b')
    ensures NoChar("_up_", 'f') && NoChar(".net.2.", 'f') && NoChar(".", 'b')
  {
  }

  lemma NoCharAppend(a: string, b: string, c: char)
    requires NoChar(a, c) && NoChar(b, c)
    ensures NoChar(a + b, c)
  {
  }

  /**
   * The names `blocks.0.ff.net.0.weight` and `blocks.0.ff.net.2.weight`:
   * the feed-forward net's first and second linear layers are renamed
   * `ff_up_` and `ff_down_`.
   */
  lemma SanitizeFeedForward(layer: string, k: char, rest: string)
    requires k == '0' || k == '2'
    requires NoChar(layer, '.') && NoChar(layer, 'f') && NoChar(layer, 'b')
    requires Absent(rest, "ff.net.0.") && Absent(rest, "ff.net.2.") && Absent(rest, "blocks.")
    ensures SanitizeName("blocks." + layer + "." + ("ff.net." + [k] + "." + rest))
      == "block" + layer + "_" + ((if k == '0' then "ff_up_" else "ff_down_") + Underscored(rest))
  {
    var front := "blocks." + layer + ".";
    var renamed := if k == '0' then "ff_up_" else "ff_down_";
    LiteralFacts();
    NoCharAppend("blocks.", layer, 'f');
    NoCharAppend("blocks." + layer, ".", 'f');
    FeedForwardRewrites(front, k, rest);
    SanitizeRenamedNet(layer, "ff.net." + [k] + "." + rest, renamed, rest);
  }

  /** After the net is renamed: the `blocks.` rewrite and the dots. */
  lemma SanitizeRenamedNet(layer: string, net: string, renamed: string, rest: string)
    requires NoChar(layer, '.') && NoChar(layer, 'b')
    requires NoChar(renamed, '.') && NoChar(renamed, 'b') && Absent(rest, "blocks.")
    requires Replace(Replace("blocks." + layer + "." + net, "ff.net.0.", "ff_up_"), "ff.net.2.", "ff_down_")
      == "blocks." + layer + "." + (renamed + rest)
    ensures SanitizeName("blocks." + layer + "." + net) == "block" + layer + "_" + (renamed + Underscored(rest))
  {
    var tail := layer + "." + (renamed + rest);
    assert "blocks." + layer + "." + (renamed + rest) == "blocks." + tail;
    AbsentAfter(renamed, rest, "blocks.");
    BlockPrefixRewrite(layer, renamed + rest);
    DotsToUnderscores("block" + tail);
    BlockUnderscored(layer, renamed + rest);
    UnderscoredAppend(renamed, rest);
    UnderscoredNoDot(renamed);
  }

  /** The two feed-forward rewrites: one of them renames the net, the other finds nothing. */
  lemma FeedForwardRewrites(front: string, k: char, rest: string)
    requires k == '0' || k == '2'
    requires NoChar(front, 'f') && Absent(rest, "ff.net.0.") && Absent(rest, "ff.net.2.")
    ensures Replace(Replace(front + ("ff.net." + [k] + "." + rest), "ff.net.0.", "ff_up_"), "ff.net.2.", "ff_down_")
      == front + ((if k == '0' then "ff_up_" else "ff_down_") + rest)
  {
    var ff := "ff.net." + [k] + ".";
    ReplaceSkips(front, ff + rest, "ff.net.0.", "ff_up_");
    if k == '0' {
      assert ff == "ff.net.0.";
      ReplaceAtFront("ff.net.0.", rest, "ff_up_");
      ReplaceNoMatch(rest, "ff.net.0.", "ff_up_");
      ReplaceSkips(front, "ff_up_" + rest, "ff.net.2.", "ff_down_");
      UpRenameSurvives(rest);
    } else {
      assert ff == "ff.net.2.";
      NetTwoSurvives(rest);
      ReplaceSkips(front, ff + rest, "ff.net.2.", "ff_down_");
      ReplaceAtFront("ff.net.2.", rest, "ff_down_");
      ReplaceNoMatch(rest, "ff.net.2.", "ff_down_");
    }
  }

  /** `ff_up_` is not matched by `ff.net.2.`. */
  lemma UpRenameSurvives(rest: string)
    requires Absent(rest, "ff.net.2.")
    ensures Replace("ff_up_" + rest, "ff.net.2.", "ff_down_") == "ff_up_" + rest
  {
    var s := "ff_up_" + rest;
    ReplaceMiss(s, "ff.net.2.", "ff_down_", 2);
    assert s[1..] == "f_up_" + rest;
    ReplaceMiss(s[1..], "ff.net.2.", "ff_down_", 1);
    assert s[1..][1..] == "_up_" + rest;
    LiteralFacts();
    AbsentAfter("_up_", rest, "ff.net.2.");
    ReplaceNoMatch("_up_" + rest, "ff.net.2.", "ff_down_");
  }

  /** `ff.net.2.` is not matched by `ff.net.0.`. */
  lemma NetTwoSurvives(rest: string)
    requires Absent(rest, "ff.net.0.")
    ensures Replace("ff.net.2." + rest, "ff.net.0.", "ff_up_") == "ff.net.2." + rest
  {
    var s := "ff.net.2." + rest;
    ReplaceMiss(s, "ff.net.0.", "ff_up_", 7);
    assert s[1..] == "f.net.2." + rest;
    ReplaceMiss(s[1..], "ff.net.0.", "ff_up_", 1);
    assert s[1..][1..] == ".net.2." + rest;
    LiteralFacts();
    AbsentAfter(".net.2.", rest, "ff.net.0.");
    ReplaceNoMatch(".net.2." + rest, "ff.net.0.", "ff_up_");
  }

  /** The `blocks.` rewrite at the front, then the dots. */
  lemma BlockPrefixRewrite(layer: string, tail: string)
    requires NoChar(layer, 'b') && Absent(tail, "blocks.")
    ensures Replace("blocks." + (layer + "." + tail), "blocks.", "block") == "block" + (layer + "." + tail)
  {
    LiteralFacts();
    NoCharAppend(layer, ".", 'b');
    AbsentAfter(layer + ".", tail, "blocks.");
    assert layer + "." + tail == (layer + ".") + tail;
    ReplaceAtFront("blocks.", layer + "." + tail, "block");
    ReplaceNoMatch(layer + "." + tail, "blocks.", "block");
  }

  // ---------------------------------------------------------------------
  // verilog_param_name
  // ---------------------------------------------------------------------

  /** `str.upper()` on an ASCII character. */
  function UpperChar(c: char): (u: char)
    ensures !('a' <= u <= 'z')
  {
    if 'a' <= c <= 'z' then (c as int - 32) as char else c
  }

  function Upper(s: string): (u: string)
    ensures |u| == |s|
    ensures forall k :: 0 <= k < |s| ==> u[k] == UpperChar(s[k])
  {
    seq(|s|, k requires 0 <= k < |s| => UpperChar(s[k]))
  }

  /** verilog_param_name: the localparam holding a tensor's scale. */
  function VerilogParamName(stem: string): (r: string)
    ensures |r| == |stem| + 6
    ensures r[..6] == "SCALE_"
    ensures forall k :: 0 <= k < |stem| ==> r[6 + k] == UpperChar(stem[k])
    ensures forall k :: 0 <= k < |r| ==> !('a' <= r[k] <= 'z')
  {
    "SCALE_" + Upper(stem)
  }

  predicate NoUppercase(s: string)
  {
    forall k :: 0 <= k < |s| ==> !('A' <= s[k] <= 'Z')
  }

  /** Upper-casing loses nothing on texts without capitals: distinct stems get distinct parameters. */
  lemma VerilogParamNameInjective(stem1: string, stem2: string)
    requires NoUppercase(stem1) && NoUppercase(stem2)
    requires VerilogParamName(stem1) == VerilogParamName(stem2)
    ensures stem1 == stem2
  {
    var r1, r2 := VerilogParamName(stem1), VerilogParamName(stem2);
    assert |stem1| == |stem2|;
    forall k | 0 <= k < |stem1|
      ensures stem1[k] == stem2[k]
    {
      assert r1[6 + k] == r2[6 + k];
      UpperCharInjective(stem1[k], stem2[k]);
    }
  }

  lemma UpperCharInjective(c1: char, c2: char)
    requires !('A' <= c1 <= 'Z') && !('A' <= c2 <= 'Z')
    requires UpperChar(c1) == UpperChar(c2)
    ensures c1 == c2
  {
    assert UpperChar(c1) as int == UpperChar(c2) as int;
  }

  // ---------------------------------------------------------------------
  // The per-tensor .hex files
  // ---------------------------------------------------------------------

  /** `f"{byte:02x}"`. */
  function HexLine(b: Byte): string
  {
    FormatHex(b, 2)
  }

  function HexLines(data: seq<Byte>): (lines: seq<string>)
    ensures |lines| == |data|
    ensures forall k :: 0 <= k < |data| ==> lines[k] == HexLine(data[k])
  {
    seq(|data|, k requires 0 <= k < |data| => HexLine(data[k]))
  }

  /** The text of a .hex file: one two-digit line per byte. */
  function HexFile(data: seq<Byte>): string
  {
    Terminated(HexLines(data))
  }

  /** Each byte is two lowercase hex digits that `int(line, 16)` reads back as the byte. */
  lemma HexLineRoundTrip(b: Byte)
    ensures |HexLine(b)| == 2
    ensures forall i :: 0 <= i < 2 ==> '0' <= HexLine(b)[i] <= '9' || 'a' <= HexLine(b)[i] <= 'f'
    ensures ParseHex(HexLine(b)) == Some(b)
  {
    assert Pow16(2) == 256;
    FormatHexWidth(b, 2);
    FormatHexLowercase(b, 2);
    ParseFormatHex(b, 2);
  }

  lemma {:induction false} TerminatedAppend(a: seq<string>, b: seq<string>)
    ensures Terminated(a + b) == Terminated(a) + Terminated(b)
    decreases |a|
  {
    if a == [] {
      assert a + b == b;
    } else {
      assert (a + b)[1..] == a[1..] + b;
      TerminatedAppend(a[1..], b);
    }
  }

  /** The dump of two byte strings one after the other is the two dumps one after the other. */
  lemma HexFileAppend(a: seq<Byte>, b: seq<Byte>)
    ensures HexFile(a + b) == HexFile(a) + HexFile(b)
  {
    assert HexLines(a + b) == HexLines(a) + HexLines(b);
    TerminatedAppend(HexLines(a), HexLines(b));
  }

  /**
   * `for byte in data: hf.write(f"{byte:02x}\n")`, appending to what the file
   * already holds.
   */
  method WriteHex(before: string, data: seq<Byte>) returns (text: string)
    ensures text == before + HexFile(data)
  {
    text := before;
    for k := 0 to |data|
      invariant text == before + HexFile(data[..k])
    {
      HexFileStep(before, text, data, k);
      text := text + HexLine(data[k]) + "\n";
    }
    assert data[..|data|] == data;
  }

  lemma HexFileStep(before: string, text: string, data: seq<Byte>, k: nat)
    requires k < |data| && text == before + HexFile(data[..k])
    ensures text + HexLine(data[k]) + "\n" == before + HexFile(data[..k + 1])
  {
    assert data[..k + 1] == data[..k] + [data[k]];
    HexFileAppend(data[..k], [data[k]]);
    HexFileSingle(data[k]);
    StringAssoc(before, HexFile(data[..k]), HexLine(data[k]) + "\n");
  }

  lemma HexFileSingle(b: Byte)
    ensures HexFile([b]) == HexLine(b) + "\n"
  {
    var line := HexLine(b);
    assert HexLines([b]) == [line];
    assert [line][1..] == [];
    assert Terminated([line]) == line + "\n" + Terminated([]);
    assert line + "\n" + [] == line + "\n";
  }

  lemma StringAssoc(a: string, b: string, c: string)
    ensures a + b + c == a + (b + c)
  {
  }

  // ---------------------------------------------------------------------
  // Reading a .hex file back
  // ---------------------------------------------------------------------

  /** The outcome of re-reading one tensor's file. */
  datatype Verdict =
    | Verified
    | LineCountFail(count: nat)  // "line count ... != size"
    | ByteFail(index: nat)       // "hex=.. bin=..", then break
    | Malformed(index: nat)      // int(line, 16) raises ValueError

  /** `hf.read().strip().split("\n")`, as written. */
  function ReadLinesAsWritten(text: string): (lines: seq<string>)
    ensures |lines| >= 1
  {
    Split(Strip(text), '\n')
  }

  /** The lines of a file whose stripped text is empty are no lines at all. */
  function ReadLines(text: string): seq<string>
  {
    if Strip(text) == [] then [] else Split(Strip(text), '\n')
  }

  /** `int(line, 16)` of every line, None where it raises ValueError. */
  function Parsed(lines: seq<string>): (vals: seq<Option<nat>>)
    ensures |vals| == |lines|
    ensures forall k :: 0 <= k < |lines| ==> vals[k] == ParseHex(lines[k])
  {
    seq(|lines|, k requires 0 <= k < |lines| => ParseHex(lines[k]))
  }

  /** The line loop from index j on: the first line that does not read back as its byte ends it. */
  function ScanFrom(vals: seq<Option<nat>>, data: seq<Byte>, j: nat): (v: Verdict)
    requires |vals| == |data| && j <= |data|
    ensures v.ByteFail? ==> j <= v.index < |data|
    ensures v.Malformed? ==> j <= v.index < |data|
    ensures !v.LineCountFail?
    decreases |data| - j
  {
    if j == |data| then Verified
    else if vals[j].None? then Malformed(j)
    else if vals[j].value != data[j] then ByteFail(j)
    else ScanFrom(vals, data, j + 1)
  }

  /** The count check, then the line loop. */
  function CheckLines(lines: seq<string>, data: seq<Byte>): Verdict
  {
    if |lines| != |data| then LineCountFail(|lines|) else ScanFrom(Parsed(lines), data, 0)
  }

  /** The re-read check of main, as written. */
  function VerifyAsWritten(text: string, data: seq<Byte>): Verdict
  {
    CheckLines(ReadLinesAsWritten(text), data)
  }

  /** The re-read check with the empty file read as zero lines. */
  function VerifyHex(text: string, data: seq<Byte>): Verdict
  {
    CheckLines(ReadLines(text), data)
  }

  /** `for j, line in enumerate(lines)`: compare each parsed line with its byte, stopping at the first failure. */
  method CheckLinesLoop(lines: seq<string>, data: seq<Byte>) returns (v: Verdict)
    ensures v == CheckLines(lines, data)
  {
    if |lines| != |data| {
      return LineCountFail(|lines|);
    }
    for j := 0 to |lines|
      invariant ScanFrom(Parsed(lines), data, 0) == ScanFrom(Parsed(lines), data, j)
    {
      var val := ParseHex(lines[j]);
      if val.None? {
        return Malformed(j);
      }
      if val.value != data[j] {
        return ByteFail(j);
      }
    }
    return Verified;
  }

  /** Verified exactly when there is one line per byte and every line reads back as its byte. */
  lemma CheckLinesVerified(lines: seq<string>, data: seq<Byte>)
    ensures CheckLines(lines, data) == Verified <==>
      |lines| == |data| && forall j :: 0 <= j < |data| ==> ParseHex(lines[j]) == Some(data[j])
  {
    if |lines| == |data| {
      var vals := Parsed(lines);
      ScanFromVerified(vals, data, 0);
      AllReadBackForall(vals, data, 0);
    }
  }

  lemma {:induction false} ScanFromVerified(vals: seq<Option<nat>>, data: seq<Byte>, j: nat)
    requires |vals| == |data| && j <= |data|
    ensures ScanFrom(vals, data, j) == Verified <==> AllReadBack(vals, data, j)
    decreases |data| - j
  {
    if j < |data| {
      ScanFromVerified(vals, data, j + 1);
    }
  }

  /** Lines j onwards each parse as their byte. */
  predicate AllReadBack(vals: seq<Option<nat>>, data: seq<Byte>, j: nat)
    requires |vals| == |data| && j <= |data|
    decreases |data| - j
  {
    j == |data| || (vals[j] == Some(data[j] as nat) && AllReadBack(vals, data, j + 1))
  }

  lemma {:induction false} AllReadBackForall(vals: seq<Option<nat>>, data: seq<Byte>, j: nat)
    requires |vals| == |data| && j <= |data|
    ensures AllReadBack(vals, data, j) <==> forall i :: j <= i < |data| ==> vals[i] == Some(data[i] as nat)
    decreases |data| - j
  {
    if j < |data| {
      AllReadBackForall(vals, data, j + 1);
    }
  }

  /** Reading back: the stripped text of a dump of non-empty data splits into its lines. */
  lemma ReadBackNonEmpty(data: seq<Byte>)
    requires |data| > 0
    ensures Strip(HexFile(data)) != []
    ensures ReadLinesAsWritten(HexFile(data)) == HexLines(data)
  {
    var lines := HexLines(data);
    HexLinesShape(data);
    TerminatedIsJoinedPlusNewline(lines);
    var joined := JoinLines(lines);
    JoinedEnds(lines);
    StripAppendSpace(joined, '\n');
    StripFixed(joined);
    SplitJoinLines(lines);
  }

  /** Every dumped line is two digits: non-empty, no newline, no surrounding space. */
  lemma HexLinesShape(data: seq<Byte>)
    ensures forall k :: 0 <= k < |data| ==> |HexLines(data)[k]| == 2
    ensures LineFree(HexLines(data))
  {
    var lines := HexLines(data);
    forall k | 0 <= k < |lines|
      ensures |lines[k]| == 2 && NoChar(lines[k], '\n')
    {
      HexLineRoundTrip(data[k]);
    }
  }

  /** The joined dump starts and ends with a digit. */
  lemma JoinedEnds(lines: seq<string>)
    requires |lines| >= 1
    requires forall k :: 0 <= k < |lines| ==> |lines[k]| == 2
    requires forall k :: 0 <= k < |lines| ==> IsHexDigit(lines[k][0]) && IsHexDigit(lines[k][1])
    ensures |JoinLines(lines)| >= 1
    ensures !IsSpace(JoinLines(lines)[0]) && !IsSpace(JoinLines(lines)[|JoinLines(lines)| - 1])
  {
    JoinLinesEnds(lines);
  }

  /** Every line of a dump reads back as its byte. */
  lemma HexLinesReadBack(data: seq<Byte>)
    ensures CheckLines(HexLines(data), data) == Verified
  {
    forall j | 0 <= j < |data|
      ensures ParseHex(HexLines(data)[j]) == Some(data[j])
    {
      HexLineRoundTrip(data[j]);
    }
    CheckLinesVerified(HexLines(data), data);
  }

  /** As written, the check passes every dump of a non-empty tensor. */
  lemma AsWrittenVerifiesNonEmpty(data: seq<Byte>)
    requires |data| > 0
    ensures VerifyAsWritten(HexFile(data), data) == Verified
  {
    ReadBackNonEmpty(data);
    HexLinesReadBack(data);
  }

  /**
   * As written, the check fails the (correct, empty) dump of a zero-size
   * tensor: `"".strip().split("\n")` is `[""]`, one line against size 0.
   */
  lemma AsWrittenRejectsEmpty()
    ensures VerifyAsWritten(HexFile([]), []) == LineCountFail(1)
  {
    assert HexFile([]) == "";
    assert Strip("") == "";
  }

  /** With the empty text read as no lines, every dump passes its check. */
  lemma WrittenFileVerifies(data: seq<Byte>)
    ensures VerifyHex(HexFile(data), data) == Verified
  {
    if |data| == 0 {
      assert HexFile(data) == "";
    } else {
      ReadBackNonEmpty(data);
      HexLinesReadBack(data);
    }
  }

  /** The correction changes only what an empty stripped text reads as. */
  lemma ReadLinesAgrees(text: string)
    requires Strip(text) != []
    ensures ReadLines(text) == ReadLinesAsWritten(text)
  {
  }

  /** Two texts that pass the check for two tensors make the tensors' data equal. */
  lemma VerifyHexDeterminate(text: string, d1: seq<Byte>, d2: seq<Byte>)
    requires VerifyHex(text, d1) == Verified && VerifyHex(text, d2) == Verified
    ensures d1 == d2
  {
    var lines := ReadLines(text);
    CheckLinesVerified(lines, d1);
    CheckLinesVerified(lines, d2);
    forall j | 0 <= j < |d1|
      ensures d1[j] == d2[j]
    {
      assert ParseHex(lines[j]) == Some(d1[j] as nat);
    }
  }

  /** A dump reads back line by line, so checking it against any data never raises. */
  lemma DumpNeverMalformed(dump: seq<Byte>, data: seq<Byte>)
    ensures !VerifyHex(HexFile(dump), data).Malformed?
  {
    var lines := ReadLines(HexFile(dump));
    if |lines| == |data| {
      if |dump| == 0 {
        assert HexFile(dump) == "";
        assert lines == [];
      } else {
        ReadBackNonEmpty(dump);
        assert lines == HexLines(dump);
        forall j | 0 <= j < |lines|
          ensures ParseHex(lines[j]).Some?
        {
          HexLineRoundTrip(dump[j]);
        }
      }
      ScanFromNeverMalformed(Parsed(lines), data, 0);
    }
  }

  lemma {:induction false} ScanFromNeverMalformed(vals: seq<Option<nat>>, data: seq<Byte>, j: nat)
    requires |vals| == |data| && j <= |data|
    requires forall i :: 0 <= i < |vals| ==> vals[i].Some?
    ensures !ScanFrom(vals, data, j).Malformed?
    decreases |data| - j
  {
    if j < |data| && vals[j].value == data[j] {
      ScanFromNeverMalformed(vals, data, j + 1);
    }
  }

  // ---------------------------------------------------------------------
  // The tensor list of main
  // ---------------------------------------------------------------------

  /** One dict of main's `tensors` list; the float scale is kept as its bits. */
  datatype TensorEntry = TensorEntry(
    index: nat, name: string, stem: string, shape: seq<nat>,
    size: nat, scaleHex: nat, hexFile: string, data: seq<Byte>)

  /** The entry main appends for a record it read. */
  function EntryOf(rec: Record): (e: TensorEntry)
    requires IsAscii(rec.name)
    ensures e.stem == SanitizeName(e.name) && e.hexFile == e.stem + ".hex"
    ensures NoChar(e.stem, '.')
  {
    var name := AsciiText(rec.name);
    SanitizeNameDotFree(name);
    TensorEntry(rec.index, name, SanitizeName(name), rec.shape, rec.size, rec.scaleHex, SanitizeName(name) + ".hex", rec.data)
  }

  predicate AllAscii(recs: seq<Record>)
  {
    forall k :: 0 <= k < |recs| ==> IsAscii(recs[k].name)
  }

  function Entries(recs: seq<Record>): (es: seq<TensorEntry>)
    requires AllAscii(recs)
    ensures |es| == |recs|
    ensures forall k :: 0 <= k < |recs| ==> es[k] == EntryOf(recs[k])
  {
    seq(|recs|, k requires 0 <= k < |recs| => EntryOf(recs[k]))
  }

  /** What main holds after its read loop: the parse of the file, each record turned into its entry. */
  function ReadTensors(buf: seq<Byte>): Option<seq<TensorEntry>>
  {
    match ParseContainer(buf, Ascii)
    case None => None
    case Some(recs) =>
      ContainerConsistent(buf, Ascii);
      Some(Entries(recs))
  }

  /** The read loop of main. */
  method ReadTensorsLoop(buf: seq<Byte>) returns (tensors: Option<seq<TensorEntry>>)
    ensures tensors == ReadTensors(buf)
  {
    var recs := BinReader.ParseBin(buf);
    if recs.None? {
      return None;
    }
    ContainerConsistent(buf, Ascii);
    var es: seq<TensorEntry> := [];
    for k := 0 to |recs.value|
      invariant es == Entries(recs.value[..k])
    {
      es := es + [EntryOf(recs.value[k])];
    }
    assert recs.value[..|recs.value|] == recs.value;
    return Some(es);
  }

  /**
   * The entries main works on: file order, `index` equal to the position,
   * `size` data bytes each.
   */
  lemma ReadTensorsShape(buf: seq<Byte>)
    requires ReadTensors(buf).Some?
    ensures |ReadTensors(buf).value| == U32At(buf, 8)
    ensures forall k :: 0 <= k < |ReadTensors(buf).value| ==>
      ReadTensors(buf).value[k].index == k && |ReadTensors(buf).value[k].data| == ReadTensors(buf).value[k].size
  {
    ContainerConsistent(buf, Ascii);
  }

  // ---------------------------------------------------------------------
  // The tensor files main writes and re-reads
  // ---------------------------------------------------------------------

  /**
   * The mem directory after the write loop: each entry's dump under its
   * file name, a later entry replacing an earlier one of the same name.
   */
  function WrittenFiles(dir: map<string, string>, es: seq<TensorEntry>): map<string, string>
  {
    if es == [] then dir
    else WrittenFiles(dir, es[..|es| - 1])[es[|es| - 1].hexFile := HexFile(es[|es| - 1].data)]
  }

  /** `for t in tensors: open(hex_path, "w")` and the byte loop into it. */
  method WriteHexFiles(dir: map<string, string>, es: seq<TensorEntry>) returns (files: map<string, string>)
    ensures files == WrittenFiles(dir, es)
  {
    files := dir;
    for k := 0 to |es|
      invariant files == WrittenFiles(dir, es[..k])
    {
      var text := WriteHex("", es[k].data);
      assert "" + HexFile(es[k].data) == HexFile(es[k].data);
      assert es[..k + 1][..k] == es[..k];
      files := files[es[k].hexFile := text];
    }
    assert es[..|es|] == es;
  }

  /** Two entries whose file names collide carry the same bytes. */
  predicate NoClash(es: seq<TensorEntry>)
  {
    forall i, j :: 0 <= i < j < |es| && es[i].hexFile == es[j].hexFile ==> es[i].data == es[j].data
  }

  /** Every entry's file exists after the write loop. */
  lemma {:induction false} WrittenFilesNamed(dir: map<string, string>, es: seq<TensorEntry>)
    ensures forall i :: 0 <= i < |es| ==> es[i].hexFile in WrittenFiles(dir, es)
    decreases |es|
  {
    if es != [] {
      var init := es[..|es| - 1];
      WrittenFilesNamed(dir, init);
      assert forall i :: 0 <= i < |init| ==> init[i] == es[i];
    }
  }

  /** Without a clash each entry's file holds exactly its own dump. */
  lemma {:induction false} WrittenFilesHold(dir: map<string, string>, es: seq<TensorEntry>)
    requires NoClash(es)
    ensures forall i :: 0 <= i < |es| ==>
      es[i].hexFile in WrittenFiles(dir, es) && WrittenFiles(dir, es)[es[i].hexFile] == HexFile(es[i].data)
    decreases |es|
  {
    if es != [] {
      var n := |es| - 1;
      var init := es[..n];
      assert forall i :: 0 <= i < n ==> init[i] == es[i];
      WrittenFilesHold(dir, init);
    }
  }

  /** A file name no entry uses keeps whatever the directory held. */
  lemma {:induction false} WrittenFilesElsewhere(dir: map<string, string>, es: seq<TensorEntry>, name: string)
    requires forall i :: 0 <= i < |es| ==> es[i].hexFile != name
    ensures name in WrittenFiles(dir, es) <==> name in dir
    ensures name in dir ==> WrittenFiles(dir, es)[name] == dir[name]
    decreases |es|
  {
    if es != [] {
      var n := |es| - 1;
      assert forall i :: 0 <= i < n ==> es[..n][i] == es[i];
      WrittenFilesElsewhere(dir, es[..n], name);
    }
  }

  /** The re-read of one entry; None when main raises (missing file, unparsable line). */
  function Recheck(files: map<string, string>, e: TensorEntry): Option<Verdict>
  {
    if e.hexFile in files then Some(VerifyHex(files[e.hexFile], e.data)) else None
  }

  /** Open the entry's file (a missing one raises), read its lines and compare them with the data. */
  method RecheckEntry(files: map<string, string>, e: TensorEntry) returns (v: Option<Verdict>)
    ensures v == Recheck(files, e)
  {
    if e.hexFile !in files {
      return None;
    }
    var verdict := CheckLinesLoop(ReadLines(files[e.hexFile]), e.data);
    return Some(verdict);
  }

  /** The verdicts of all entries, in order. */
  function Rechecks(files: map<string, string>, es: seq<TensorEntry>): (vs: seq<Option<Verdict>>)
    ensures |vs| == |es|
    ensures forall k :: 0 <= k < |es| ==> vs[k] == Recheck(files, es[k])
  {
    seq(|es|, k requires 0 <= k < |es| => Recheck(files, es[k]))
  }

  /** `errors += 1` for a failed tensor; the exceptions end the run. */
  function Tally(n: nat, v: Option<Verdict>): (r: Option<nat>)
    ensures r.Some? ==> n <= r.value <= n + 1
    ensures r == Some(n) <==> v == Some(Verified)
  {
    match v
    case None => None
    case Some(Malformed(_)) => None
    case Some(Verified) => Some(n)
    case Some(_) => Some(n + 1)
  }

  /** The counter after a run of verdicts, None once one of them raised. */
  function Count(vs: seq<Option<Verdict>>): (r: Option<nat>)
    ensures r.Some? ==> r.value <= |vs|
  {
    if vs == [] then Some(0)
    else
      match Count(vs[..|vs| - 1])
      case None => None
      case Some(n) => Tally(n, vs[|vs| - 1])
  }

  /** The `errors` counter after the re-read loop, None when the loop raises. */
  function ErrorCount(files: map<string, string>, es: seq<TensorEntry>): (r: Option<nat>)
    ensures r.Some? ==> r.value <= |es|
  {
    Count(Rechecks(files, es))
  }

  /** The re-read loop over all entries, counting those that fail. */
  method VerifyHexFiles(files: map<string, string>, es: seq<TensorEntry>) returns (errors: Option<nat>)
    ensures errors == ErrorCount(files, es)
  {
    ghost var vs := Rechecks(files, es);
    var count: nat := 0;
    for k := 0 to |es|
      invariant Count(vs[..k]) == Some(count)
    {
      CountStep(vs, k, count);
      var v := RecheckEntry(files, es[k]);
      var next := Tally(count, v);
      if next.None? {
        CountStays(vs, k + 1);
        return None;
      }
      count := next.value;
    }
    assert vs[..|es|] == vs;
    return Some(count);
  }

  lemma CountStep(vs: seq<Option<Verdict>>, k: nat, count: nat)
    requires k < |vs| && Count(vs[..k]) == Some(count)
    ensures Count(vs[..k + 1]) == Tally(count, vs[k])
  {
    assert vs[..k + 1][..k] == vs[..k];
  }

  /** Once the loop has raised, it stays raised. */
  lemma {:induction false} CountStays(vs: seq<Option<Verdict>>, n: nat)
    requires n <= |vs| && Count(vs[..n]).None?
    ensures Count(vs).None?
    decreases |vs| - n
  {
    if n == |vs| {
      assert vs[..n] == vs;
    } else {
      assert vs[..n + 1][..n] == vs[..n];
      CountStays(vs, n + 1);
    }
  }

  /** No errors exactly when every verdict is Verified. */
  lemma {:induction false} CountZero(vs: seq<Option<Verdict>>)
    ensures Count(vs) == Some(0) <==> forall i :: 0 <= i < |vs| ==> vs[i] == Some(Verified)
    decreases |vs|
  {
    if vs != [] {
      var n := |vs| - 1;
      CountZero(vs[..n]);
      assert forall i :: 0 <= i < n ==> vs[..n][i] == vs[i];
    }
  }

  /** A run in which nothing raises ends with a count. */
  lemma {:induction false} CountSafe(vs: seq<Option<Verdict>>)
    requires forall i :: 0 <= i < |vs| ==> vs[i].Some? && !vs[i].value.Malformed?
    ensures Count(vs).Some?
    decreases |vs|
  {
    if vs != [] {
      var n := |vs| - 1;
      assert forall i :: 0 <= i < n ==> vs[..n][i] == vs[i];
      CountSafe(vs[..n]);
    }
  }

  /**
   * Re-reading the files just written finds no error exactly when no two
   * tensors whose names sanitize to the same file differ in their bytes.
   */
  lemma RecheckWrittenFiles(dir: map<string, string>, es: seq<TensorEntry>)
    ensures ErrorCount(WrittenFiles(dir, es), es) == Some(0) <==> NoClash(es)
  {
    var files := WrittenFiles(dir, es);
    var vs := Rechecks(files, es);
    CountZero(vs);
    if NoClash(es) {
      WrittenFilesHold(dir, es);
      forall i | 0 <= i < |es|
        ensures vs[i] == Some(Verified)
      {
        WrittenFileVerifies(es[i].data);
      }
    }
    if Count(vs) == Some(0) {
      forall i, j | 0 <= i < j < |es| && es[i].hexFile == es[j].hexFile
        ensures es[i].data == es[j].data
      {
        assert vs[i] == Some(Verified) && vs[j] == Some(Verified);
        VerifyHexDeterminate(files[es[i].hexFile], es[i].data, es[j].data);
      }
    }
  }

  /** The position of the last entry with the given file name, |es| when there is none. */
  function Writer(es: seq<TensorEntry>, name: string): (m: nat)
    ensures m <= |es|
    ensures m < |es| ==> es[m].hexFile == name
  {
    if es == [] then 0
    else if es[|es| - 1].hexFile == name then |es| - 1
    else if Writer(es[..|es| - 1], name) < |es| - 1 then Writer(es[..|es| - 1], name)
    else |es|
  }

  /** A file some entry wrote holds the dump of the last such entry. */
  lemma {:induction false} WriterFile(dir: map<string, string>, es: seq<TensorEntry>, name: string)
    ensures Writer(es, name) < |es| ==>
      name in WrittenFiles(dir, es) && WrittenFiles(dir, es)[name] == HexFile(es[Writer(es, name)].data)
    decreases |es|
  {
    if es != [] && es[|es| - 1].hexFile != name {
      var n := |es| - 1;
      WriterFile(dir, es[..n], name);
      if Writer(es[..n], name) < n {
        assert es[..n][Writer(es[..n], name)] == es[Writer(es[..n], name)];
      }
    }
  }

  /** Every entry has a last writer of its file name. */
  lemma {:induction false} WriterFinds(es: seq<TensorEntry>, i: nat)
    requires i < |es|
    ensures Writer(es, es[i].hexFile) < |es|
    decreases |es|
  {
    var n := |es| - 1;
    if es[n].hexFile != es[i].hexFile {
      assert es[..n][i] == es[i];
      WriterFinds(es[..n], i);
    }
  }

  /** On the files just written, main's verify step reports an error count and never raises. */
  lemma WrittenFilesCounted(dir: map<string, string>, es: seq<TensorEntry>)
    ensures ErrorCount(WrittenFiles(dir, es), es).Some?
  {
    var files := WrittenFiles(dir, es);
    var vs := Rechecks(files, es);
    forall i | 0 <= i < |es|
      ensures vs[i].Some? && !vs[i].value.Malformed?
    {
      WriterFinds(es, i);
      WriterFile(dir, es, es[i].hexFile);
      DumpNeverMalformed(es[Writer(es, es[i].hexFile)].data, es[i].data);
    }
    CountSafe(vs);
  }

  // ---------------------------------------------------------------------
  // The combined LayerNorm parameter file
  // ---------------------------------------------------------------------

  /** The byte count that marks a LayerNorm gamma or beta vector. */
  const LN_SIZE: nat := 128

  /** `ln_indices`: the positions of the entries of size 128, in file order. */
  function LnIndices(es: seq<TensorEntry>): (idxs: seq<nat>)
    ensures |idxs| <= |es|
    ensures forall n :: 0 <= n < |idxs| ==> idxs[n] < |es|
  {
    if es == [] then []
    else LnIndices(es[..|es| - 1]) + (if es[|es| - 1].size == LN_SIZE then [|es| - 1] else [])
  }

  /** The data of the entries at the given positions, one after the other. */
  function Gather(es: seq<TensorEntry>, idxs: seq<nat>): seq<Byte>
    requires forall n :: 0 <= n < |idxs| ==> idxs[n] < |es|
  {
    if idxs == [] then []
    else Gather(es, idxs[..|idxs| - 1]) + es[idxs[|idxs| - 1]].data
  }

  /** The bytes ln_params.hex dumps. */
  function LnBytes(es: seq<TensorEntry>): seq<Byte>
  {
    Gather(es, LnIndices(es))
  }

  /** The ln_params.hex loop: every byte of every selected entry, in order. */
  method PackLnParams(es: seq<TensorEntry>) returns (text: string)
    ensures text == HexFile(LnBytes(es))
  {
    var idxs := LnIndices(es);
    text := "";
    for n := 0 to |idxs|
      invariant text == HexFile(Gather(es, idxs[..n]))
    {
      GatherStep(es, idxs, n);
      text := WriteHex(text, es[idxs[n]].data);
      HexFileAppend(Gather(es, idxs[..n]), es[idxs[n]].data);
    }
    assert idxs[..|idxs|] == idxs;
  }

  lemma GatherStep(es: seq<TensorEntry>, idxs: seq<nat>, n: nat)
    requires forall m :: 0 <= m < |idxs| ==> idxs[m] < |es|
    requires n < |idxs|
    ensures Gather(es, idxs[..n + 1]) == Gather(es, idxs[..n]) + es[idxs[n]].data
  {
    assert idxs[..n + 1][..n] == idxs[..n];
  }

  /** Exactly the entries of size 128 are selected. */
  lemma {:induction false} LnIndicesMembers(es: seq<TensorEntry>, i: nat)
    ensures i in LnIndices(es) <==> i < |es| && es[i].size == LN_SIZE
    decreases |es|
  {
    if es != [] {
      var n := |es| - 1;
      LnIndicesMembers(es[..n], i);
      if i < n {
        assert es[..n][i] == es[i];
      }
    }
  }

  /** The selected positions come in increasing (file) order. */
  lemma {:induction false} LnIndicesIncreasing(es: seq<TensorEntry>)
    ensures forall m, n :: 0 <= m < n < |LnIndices(es)| ==> LnIndices(es)[m] < LnIndices(es)[n]
    decreases |es|
  {
    if es != [] {
      LnIndicesIncreasing(es[..|es| - 1]);
    }
  }

  /** Each entry holds as many bytes as its size. */
  predicate Sized(es: seq<TensorEntry>)
  {
    forall k :: 0 <= k < |es| ==> |es[k].data| == es[k].size
  }

  /**
   * The layout of ln_params.hex: 128 bytes per selected entry, byte
   * 128·n + j being byte j of the n-th one.
   */
  lemma LnLayout(es: seq<TensorEntry>)
    requires Sized(es)
    ensures forall n :: 0 <= n < |LnIndices(es)| ==> |es[LnIndices(es)[n]].data| == LN_SIZE
    ensures |LnBytes(es)| == LN_SIZE * |LnIndices(es)|
    ensures forall n, j :: 0 <= n < |LnIndices(es)| && 0 <= j < LN_SIZE ==>
      LnBytes(es)[LN_SIZE * n + j] == es[LnIndices(es)[n]].data[j]
  {
    var idxs := LnIndices(es);
    forall n | 0 <= n < |idxs|
      ensures |es[idxs[n]].data| == LN_SIZE
    {
      LnIndicesMembers(es, idxs[n]);
    }
    GatherLayout(es, idxs);
  }

  lemma {:induction false} GatherLayout(es: seq<TensorEntry>, idxs: seq<nat>)
    requires forall n :: 0 <= n < |idxs| ==> idxs[n] < |es| && |es[idxs[n]].data| == LN_SIZE
    ensures |Gather(es, idxs)| == LN_SIZE * |idxs|
    ensures forall n, j :: 0 <= n < |idxs| && 0 <= j < LN_SIZE ==>
      Gather(es, idxs)[LN_SIZE * n + j] == es[idxs[n]].data[j]
    decreases |idxs|
  {
    if idxs != [] {
      var last := |idxs| - 1;
      var init := idxs[..last];
      GatherLayout(es, init);
      var front := Gather(es, init);
      var block := es[idxs[last]].data;
      assert Gather(es, idxs) == front + block;
      forall n, j | 0 <= n < |idxs| && 0 <= j < LN_SIZE
        ensures Gather(es, idxs)[LN_SIZE * n + j] == es[idxs[n]].data[j]
      {
        if n < last {
          assert init[n] == idxs[n];
        } else {
          assert LN_SIZE * n + j == |front| + j;
        }
      }
    }
  }
}
