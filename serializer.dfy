/**
 * The two renderings of the finished line sequence: text (the lines joined by
 * newlines) and the GCT container (magic header, the two hex words of every
 * line that reads as a code line, magic footer).
 */
module Serializer {
  import opened Results
  import opened Hex
  import opened Model

  const GctHeader: seq<Byte> := [0x00, 0xD0, 0xC0, 0xDE, 0x00, 0xD0, 0xC0, 0xDE]
  const GctFooter: seq<Byte> := [0xF0, 0x00, 0x00, 0x00, 0x00, 0x00, 0x00, 0x00]

  lemma AllHexConcat(a: string, b: string)
    ensures AllHex(a + b) <==> AllHex(a) && AllHex(b)
  {
    if AllHex(a + b) {
      forall i | 0 <= i < |a| ensures IsHexDigit(a[i]) {
        assert (a + b)[i] == a[i];
      }
      forall i | 0 <= i < |b| ensures IsHexDigit(b[i]) {
        assert (a + b)[|a| + i] == b[i];
      }
    }
    if AllHex(a) && AllHex(b) {
      forall i | 0 <= i < |a + b| ensures IsHexDigit((a + b)[i]) {
        if i < |a| {
          assert (a + b)[i] == a[i];
        } else {
          assert (a + b)[i] == b[i - |a|];
        }
      }
    }
  }

  /**
   * How the GCT writer reads one line: characters [0,8) and [9,17) as hex,
   * or nothing when the line is shorter than 17 characters or either field is not hex.
   */
  function DecodeLine(line: string): (r: Option<seq<Byte>>)
    ensures r.Some? <==> |line| >= 17 && AllHex(line[0..8]) && AllHex(line[9..17])
    ensures r.Some? ==> |r.value| == 8
  {
    if |line| < 17 then None
    else
      AllHexConcat(line[0..8], line[9..17]);
      DecodeString(line[0..8] + line[9..17])
  }

  /** The bytes the GCT writer collects from `lines`, in order. */
  function GctPayload(lines: seq<string>): seq<Byte> {
    if |lines| == 0 then []
    else
      var last := DecodeLine(lines[|lines| - 1]);
      GctPayload(lines[..|lines| - 1]) + (if last.Some? then last.value else [])
  }

  /** How many of `lines` the GCT writer keeps. */
  function CodeLineCount(lines: seq<string>): nat {
    if |lines| == 0 then 0
    else CodeLineCount(lines[..|lines| - 1]) + (if DecodeLine(lines[|lines| - 1]).Some? then 1 else 0)
  }

  /** The byte assembly of `writeGctOutput` (the file write itself is left out). */
  method GctOutput(output: seq<string>) returns (gct: seq<Byte>)
    ensures gct == GctHeader + GctPayload(output) + GctFooter
  {
    gct := [0x00, 0xD0, 0xC0, 0xDE, 0x00, 0xD0, 0xC0, 0xDE];
    for i := 0 to |output|
      invariant gct == GctHeader + GctPayload(output[..i])
    {
      assert output[..i + 1][..i] == output[..i];
      var line := output[i];
      if |line| < 17 {
        continue;
      }
      var lineBytes := DecodeString(line[0..8] + line[9..17]);
      if lineBytes.None? {
        continue;
      }
      gct := gct + lineBytes.value;
    }
    assert output[..|output|] == output;
    gct := gct + [0xF0, 0x00, 0x00, 0x00, 0x00, 0x00, 0x00, 0x00];
  }

  /** `writeTextOutput`: the lines joined by newlines, with no final newline. */
  function TextOutput(output: seq<string>): string {
    Join(output, "\n")
  }

  /** Reading text back: the pieces between the separators (`strings.Split`). */
  function Split(s: string, sep: char): (parts: seq<string>)
    ensures |parts| >= 1
  {
    if |s| == 0 then [""]
    else
      var init := Split(s[..|s| - 1], sep);
      if s[|s| - 1] == sep then init + [""]
      else init[..|init| - 1] + [init[|init| - 1] + [s[|s| - 1]]]
  }

  // ---------------------------------------------------------------------------
  // GCT lemmas

  lemma {:induction false} GctPayloadConcat(a: seq<string>, b: seq<string>)
    ensures GctPayload(a + b) == GctPayload(a) + GctPayload(b)
    decreases |b|
  {
    if |b| == 0 {
      assert a + b == a;
    } else {
      var b' := b[..|b| - 1];
      assert (a + b)[..|a + b| - 1] == a + b';
      GctPayloadConcat(a, b');
    }
  }

  /** One more line adds its bytes, if it reads as a code line. */
  lemma GctPayloadSnoc(lines: seq<string>, line: string)
    ensures GctPayload(lines + [line])
         == GctPayload(lines) + (if DecodeLine(line).Some? then DecodeLine(line).value else [])
  {
    assert (lines + [line])[..|lines|] == lines;
  }

  /** Two line lists that differ only in a first line read the same way read the same. */
  lemma SameFirstSameGct(x: string, y: string, rest: seq<string>)
    requires DecodeLine(x) == DecodeLine(y)
    ensures GctPayload([x] + rest) == GctPayload([y] + rest)
  {
    var none: seq<string> := [];
    GctPayloadConcat([x], rest);
    GctPayloadConcat([y], rest);
    GctPayloadSnoc(none, x);
    GctPayloadSnoc(none, y);
    assert none + [x] == [x] && none + [y] == [y];
  }

  lemma {:induction false} GctPayloadLength(lines: seq<string>)
    ensures |GctPayload(lines)| == 8 * CodeLineCount(lines)
    decreases |lines|
  {
    if |lines| > 0 {
      GctPayloadLength(lines[..|lines| - 1]);
    }
  }

  /** The container is the header, 8 bytes per kept line, and the footer. */
  lemma GctLayout(output: seq<string>, gct: seq<Byte>)
    requires gct == GctHeader + GctPayload(output) + GctFooter
    ensures |gct| == 16 + 8 * CodeLineCount(output)
    ensures gct[..8] == [0x00, 0xD0, 0xC0, 0xDE, 0x00, 0xD0, 0xC0, 0xDE]
    ensures gct[|gct| - 8..] == [0xF0, 0x00, 0x00, 0x00, 0x00, 0x00, 0x00, 0x00]
  {
    GctPayloadLength(output);
  }

  /** Blank lines, `$` name lines and `*` description lines never reach the container. */
  lemma NonCodeLineSkipped(line: string)
    requires line == "" || line[0] == '$' || line[0] == '*'
    ensures DecodeLine(line) == None
  {
    if |line| >= 17 {
      assert line[0..8][0] == line[0];
    }
  }

  /** A list of lines none of which reads as a code line adds nothing to the container. */
  lemma {:induction false} NoCodeLinesNoPayload(lines: seq<string>)
    requires forall i :: 0 <= i < |lines| ==> DecodeLine(lines[i]).None?
    ensures GctPayload(lines) == []
    decreases |lines|
  {
    if |lines| > 0 {
      NoCodeLinesNoPayload(lines[..|lines| - 1]);
    }
  }

  /** A line made of two 8-character fields around a space is read as the two fields together. */
  lemma DecodeFields(a: string, b: string)
    requires |a| == 8 && |b| == 8
    ensures DecodeLine(a + " " + b) == DecodeString(a + b)
  {
    var line := a + " " + b;
    assert line[0..8] == a;
    assert line[9..17] == b;
  }

  /** Only the first 17 characters of a line decide what the container gets from it. */
  lemma DecodeLinePrefix(line: string, rest: string)
    requires |line| >= 17
    ensures DecodeLine(line + rest) == DecodeLine(line)
  {
    assert (line + rest)[0..8] == line[0..8];
    assert (line + rest)[9..17] == line[9..17];
  }

  // ---------------------------------------------------------------------------
  // Text lemmas

  lemma {:induction false} SplitWithoutSeparator(p: string, sep: char)
    requires forall j :: 0 <= j < |p| ==> p[j] != sep
    ensures Split(p, sep) == [p]
    decreases |p|
  {
    if |p| > 0 {
      SplitWithoutSeparator(p[..|p| - 1], sep);
      assert p[..|p| - 1] + [p[|p| - 1]] == p;
    }
  }

  lemma {:induction false} SplitAfterSeparator(a: string, sep: char, b: string)
    requires forall j :: 0 <= j < |b| ==> b[j] != sep
    ensures Split(a + [sep] + b, sep) == Split(a, sep) + [b]
    decreases |b|
  {
    var s := a + [sep] + b;
    if |b| == 0 {
      assert s[..|s| - 1] == a;
    } else {
      var b' := b[..|b| - 1];
      assert s[..|s| - 1] == a + [sep] + b';
      SplitAfterSeparator(a, sep, b');
      assert b' + [b[|b| - 1]] == b;
    }
  }

  /** Round trip of the text output: splitting it at newlines gives the lines back, when no line holds a newline. */
  lemma {:induction false} SplitTextOutput(output: seq<string>)
    requires |output| >= 1
    requires forall i, j :: 0 <= i < |output| && 0 <= j < |output[i]| ==> output[i][j] != '\n'
    ensures Split(TextOutput(output), '\n') == output
    decreases |output|
  {
    var n := |output|;
    if n == 1 {
      SplitWithoutSeparator(output[0], '\n');
    } else {
      var init := output[..n - 1];
      assert Join(output, "\n") == Join(init, "\n") + "\n" + output[n - 1];
      SplitTextOutput(init);
      SplitAfterSeparator(Join(init, "\n"), '\n', output[n - 1]);
      assert init + [output[n - 1]] == output;
    }
  }
}
