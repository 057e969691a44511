/**
 * The multi-line Gecko codes built from machine code: the `C2` injection, whose
 * header counts 8-byte records, and the `06` block write (from assembled code or a
 * binary file), whose header counts bytes. Both follow the header with one
 * `XXXXXXXX YYYYYYYY` line per 8-byte record.
 */
module Packer {
  import opened Results
  import opened Hex
  import opened Model
  import opened Serializer
  import opened Encoder

  const InjectionTail: seq<Byte> := [0x60, 0x00, 0x00, 0x00, 0x00, 0x00, 0x00, 0x00]
  const BlockPad: seq<Byte> := [0x60, 0x00, 0x00, 0x00]
  const ZeroWord: seq<Byte> := [0x00, 0x00, 0x00, 0x00]

  /** Word-aligned lengths: one that does not fill whole records is a word short of doing so. */
  lemma WordAlignedLength(n: nat)
    ensures n % 4 == 0 && n % 8 != 0 ==> (n + 4) % 8 == 0
    ensures n % 8 == 0 ==> (n + 8) % 8 == 0
  {
    var q, r := n / 8, n % 8;
    assert n == 8 * q + r;
    if r >= 4 {
      DivModUnique(n, 4, 2 * q + 1, r - 4);
      DivModUnique(n + 4, 8, q + 1, r - 4);
    } else {
      DivModUnique(n, 4, 2 * q, r);
      DivModUnique(n + 8, 8, q + 1, r);
    }
  }

  /**
   * The padding of an injection: a code that fills whole records gets a `nop` and a zero
   * word, any other a zero word, so the result ends in a zero word and fills whole records.
   */
  function InjectionPadded(b: seq<Byte>): (p: seq<Byte>)
    ensures |p| == (if |b| % 8 == 0 then |b| + 8 else |b| + 4)
    ensures p[..|b|] == b
    ensures p[|p| - 4..] == ZeroWord
    ensures |b| % 8 == 0 ==> p[|b|..|b| + 4] == BlockPad
    ensures |b| % 4 == 0 ==> |p| % 8 == 0
  {
    WordAlignedLength(|b|);
    if |b| % 8 == 0 then b + InjectionTail else b + ZeroWord
  }

  /** The padding of a block: a `nop` word when the code does not fill whole records, nothing otherwise. */
  function BlockPadded(b: seq<Byte>): (p: seq<Byte>)
    ensures |b| % 8 == 0 ==> p == b
    ensures |b| % 8 != 0 ==> |p| == |b| + 4 && p[..|b|] == b && p[|b|..] == BlockPad
    ensures |b| % 4 == 0 ==> |p| % 8 == 0
  {
    WordAlignedLength(|b|);
    if |b| % 8 != 0 then b + BlockPad else b
  }

  /** The first line of a multi-line code: the type digits, the low address digits and an 8-digit count. */
  function HeaderLine(kind: string, address: string, count: nat): string
    requires |address| >= 2
  {
    kind + ToUpper(address[2..]) + " " + FormatHex(count, 8)
  }

  /** One 8-byte record as two upper-case words around a space. */
  function RecordLine(w: seq<Byte>): (line: string)
    requires |w| == 8
    ensures |line| == 17 && line[8] == ' '
  {
    ToUpper(EncodeToString(w[..4])) + " " + ToUpper(EncodeToString(w[4..]))
  }

  /** Every character of a record line but the separating space is an upper-case hex digit. */
  lemma RecordLineUpper(w: seq<Byte>)
    requires |w| == 8
    ensures forall i :: 0 <= i < 17 && i != 8 ==> IsUpperHexDigit(RecordLine(w)[i])
  {
    var left, right := EncodeToString(w[..4]), EncodeToString(w[4..]);
    var line := RecordLine(w);
    forall i | 0 <= i < 17 && i != 8 ensures IsUpperHexDigit(line[i]) {
      if i < 8 {
        UpperCharDigit(left[i]);
        assert line[i] == ToUpper(left)[i];
      } else {
        UpperCharDigit(right[i - 9]);
        assert line[i] == ToUpper(right)[i - 9];
      }
    }
  }

  /** The record lines of the first `n` 8-byte records of a padded code, in order. */
  function Records(p: seq<Byte>, n: nat): (lines: seq<string>)
    requires 8 * n <= |p|
    ensures |lines| == n
  {
    if n == 0 then [] else Records(p, n - 1) + [RecordLine(p[8 * (n - 1)..8 * n])]
  }

  /**
   * The lines of a `C2` injection of the machine code `bytes` assembled from `file`
   * (`generateInjectionCodeLines` after `compile`).
   */
  function InjectionCodeLines(address: string, file: string, bytes: seq<Byte>): (r: Result<seq<string>, Error>)
    requires |address| >= 2 && |bytes| % 4 == 0
    ensures r.Err? <==> |bytes| == 0
    ensures r.Err? ==> r.error == NoCode(file)
    ensures |bytes| == 4 ==> r == Ok([ReplaceCodeLine(address, EncodeToString(bytes))])
    ensures |bytes| > 4 ==> r.Ok? && |r.value| == 1 + |InjectionPadded(bytes)| / 8
                            && r.value[0] == HeaderLine("C2", address, |InjectionPadded(bytes)| / 8)
  {
    if |bytes| == 0 then Err(NoCode(file))
    else if |bytes| == 4 then Ok([ReplaceCodeLine(address, EncodeToString(bytes))])
    else
      var p := InjectionPadded(bytes);
      Ok([HeaderLine("C2", address, |p| / 8)] + Records(p, |p| / 8))
  }

  /** The lines of a `06` block write of `bytes` (`generateReplaceCodeBlockLines`, `generateReplaceBinaryLines`). */
  function BlockLines(address: string, bytes: seq<Byte>): (lines: seq<string>)
    requires |address| >= 2 && |bytes| % 4 == 0
    ensures |lines| == 1 + |BlockPadded(bytes)| / 8
    ensures lines[0] == HeaderLine("06", address, |BlockPadded(bytes)|)
  {
    var p := BlockPadded(bytes);
    [HeaderLine("06", address, |p|)] + Records(p, |p| / 8)
  }

  // ---------------------------------------------------------------------------
  // The record loops

  /** The `for i := 0; i < len(instructions); i += 8` loop the packers share, after their header. */
  method EmitRecords(header: string, instructions: seq<Byte>) returns (lines: seq<string>)
    requires |instructions| % 8 == 0
    ensures lines == [header] + Records(instructions, |instructions| / 8)
  {
    ghost var m := |instructions| / 8;
    assert 8 * m == |instructions|;
    lines := [header];
    var i := 0;
    ghost var k := 0;
    while i < |instructions|
      invariant i == 8 * k && k <= m
      invariant lines == [header] + Records(instructions, k)
    {
      assert k < m && 8 * (k + 1) <= 8 * m;
      var left := ToUpper(EncodeToString(instructions[i..i + 4]));
      var right := ToUpper(EncodeToString(instructions[i + 4..i + 8]));
      RecordsStep(instructions, k);
      AppendOne([header], Records(instructions, k), left + " " + right);
      lines := lines + [left + " " + right];
      i, k := i + 8, k + 1;
    }
  }

  /** One more record: the record line of bytes `[8k, 8k+8)`, written as the loop writes it. */
  lemma RecordsStep(p: seq<Byte>, k: nat)
    requires 8 * (k + 1) <= |p|
    ensures Records(p, k + 1)
         == Records(p, k) + [ToUpper(EncodeToString(p[8 * k..8 * k + 4])) + " " + ToUpper(EncodeToString(p[8 * k + 4..8 * k + 8]))]
  {
    var w := p[8 * k..8 * (k + 1)];
    assert w[..4] == p[8 * k..8 * k + 4] && w[4..] == p[8 * k + 4..8 * k + 8];
  }

  lemma AppendOne(a: seq<string>, b: seq<string>, x: string)
    ensures a + b + [x] == a + (b + [x])
  {
  }

  /** `generateInjectionCodeLines`, given the machine code `compile(file)` produced. */
  method GenerateInjectionCodeLines(address: string, file: string, instructions: seq<Byte>)
    returns (r: Result<seq<string>, Error>)
    requires |address| >= 2 && |instructions| % 4 == 0
    ensures r == InjectionCodeLines(address, file, instructions)
  {
    var n := |instructions|;
    if n == 0 {
      return Err(NoCode(file));
    }
    if n == 4 {
      var instructionStr := EncodeToString(instructions[0..4]);
      assert instructions[0..4] == instructions;
      return Ok([ReplaceCodeLine(address, instructionStr)]);
    }
    var padded := instructions;
    if n % 8 == 0 {
      padded := padded + [0x60, 0x00, 0x00, 0x00, 0x00, 0x00, 0x00, 0x00];
    } else {
      padded := padded + [0x00, 0x00, 0x00, 0x00];
    }
    var lines := EmitRecords(HeaderLine("C2", address, |padded| / 8), padded);
    return Ok(lines);
  }

  /** `generateReplaceCodeBlockLines` and `generateReplaceBinaryLines`, given the code or the file's bytes. */
  method GenerateBlockLines(address: string, instructions: seq<Byte>) returns (lines: seq<string>)
    requires |address| >= 2 && |instructions| % 4 == 0
    ensures lines == BlockLines(address, instructions)
  {
    var padded := instructions;
    if |padded| % 8 != 0 {
      padded := padded + [0x60, 0x00, 0x00, 0x00];
    }
    assert padded == BlockPadded(instructions);
    lines := EmitRecords(HeaderLine("06", address, |padded|), padded);
  }

  // ---------------------------------------------------------------------------
  // What the GCT reads back

  /** A record line reads back as its eight bytes. */
  lemma RecordLineDecodes(w: seq<Byte>)
    requires |w| == 8
    ensures DecodeLine(RecordLine(w)) == Some(w)
  {
    var left, right := ToUpper(EncodeToString(w[..4])), ToUpper(EncodeToString(w[4..]));
    DecodeFields(left, right);
    DecodeUpperEncode(w[..4]);
    DecodeUpperEncode(w[4..]);
    DecodeConcat(left, right);
    assert w[..4] + w[4..] == w;
  }

  lemma SingleLinePayload(line: string)
    ensures GctPayload([line]) == (if DecodeLine(line).Some? then DecodeLine(line).value else [])
  {
    assert [line][..0] == [];
  }

  /** Round trip of the records: the GCT reads back exactly the bytes they were made of. */
  lemma {:induction false} RecordsPayload(p: seq<Byte>, n: nat)
    requires 8 * n <= |p|
    ensures GctPayload(Records(p, n)) == p[..8 * n]
  {
    if n > 0 {
      var last := p[8 * (n - 1)..8 * n];
      RecordsPayload(p, n - 1);
      RecordLineDecodes(last);
      PayloadSnocChunk(Records(p, n - 1), RecordLine(last), p[..8 * (n - 1)], last);
      SliceConcat(p, 8 * (n - 1), 8 * n);
    }
  }

  lemma PayloadSnocChunk(init: seq<string>, line: string, a: seq<Byte>, b: seq<Byte>)
    requires GctPayload(init) == a && DecodeLine(line) == Some(b)
    ensures GctPayload(init + [line]) == a + b
  {
    GctPayloadSnoc(init, line);
  }

  lemma SliceConcat(p: seq<Byte>, i: nat, j: nat)
    requires i <= j <= |p|
    ensures p[..i] + p[i..j] == p[..j]
  {
  }

  /** A header line reads back as the type byte, the low three address bytes and the 4-byte count. */
  lemma HeaderLineDecodes(kind: string, address: string, count: nat)
    requires |kind| == 2 && AllHex(kind) && IsAddress(address) && count < 0x1_0000_0000
    ensures DecodeLine(HeaderLine(kind, address, count))
         == Some(DecodeString(kind).value + DecodeString(address).value[1..] + BigEndian(count, 4))
  {
    var head, word := kind + ToUpper(address[2..]), FormatHex(count, 8);
    assert Pow16(8) == 0x1_0000_0000;
    FormatHexLength(count, 8);
    DecodeFields(head, word);
    DecodeTag(kind, address);
    DecodeFormatHex(count, 4);
    DecodeConcat(head, word);
  }

  /** A header followed by records reads back as the header's bytes and then the padded code. */
  lemma HeaderAndRecordsPayload(header: string, p: seq<Byte>)
    requires |p| % 8 == 0 && DecodeLine(header).Some?
    ensures GctPayload([header] + Records(p, |p| / 8)) == DecodeLine(header).value + p
  {
    GctPayloadConcat([header], Records(p, |p| / 8));
    SingleLinePayload(header);
    RecordsPayload(p, |p| / 8);
    assert p[..8 * (|p| / 8)] == p;
  }

  lemma InjectionKind()
    ensures |"C2"| == 2 && AllHex("C2") && DecodeString("C2") == Some([0xC2])
  {
    DecodeByte('C', '2');
    assert "C2" == ['C', '2'];
  }

  lemma BlockKind()
    ensures |"06"| == 2 && AllHex("06") && DecodeString("06") == Some([0x06])
  {
    DecodeByte('0', '6');
    assert "06" == ['0', '6'];
  }

  /**
   * The GCT form of an injection of more than one word: `C2`, the low address bytes,
   * the record count, then the padded code, which ends in a zero word.
   */
  lemma InjectionGct(address: string, file: string, bytes: seq<Byte>)
    requires IsAddress(address) && |bytes| % 4 == 0 && |bytes| > 4
    requires |InjectionPadded(bytes)| / 8 < 0x1_0000_0000
    ensures var p := InjectionPadded(bytes);
      GctPayload(InjectionCodeLines(address, file, bytes).value)
        == [0xC2] + DecodeString(address).value[1..] + BigEndian(|p| / 8, 4) + p
  {
    var p := InjectionPadded(bytes);
    var header := HeaderLine("C2", address, |p| / 8);
    assert InjectionCodeLines(address, file, bytes).value == [header] + Records(p, |p| / 8);
    InjectionKind();
    HeaderLineDecodes("C2", address, |p| / 8);
    HeaderAndRecordsPayload(header, p);
  }

  /** An injection of one word reads back as the `04` write of that word. */
  lemma SingleWordInjectionGct(address: string, file: string, bytes: seq<Byte>)
    requires IsAddress(address) && |bytes| == 4
    ensures GctPayload(InjectionCodeLines(address, file, bytes).value)
         == [0x04] + DecodeString(address).value[1..] + bytes
  {
    var value := EncodeToString(bytes);
    ReplaceLineDecodes(address, value);
    DecodeEncode(bytes);
    SingleLinePayload(ReplaceCodeLine(address, value));
  }

  /** The GCT form of a block write: `06`, the low address bytes, the byte count, then the padded code. */
  lemma BlockGct(address: string, bytes: seq<Byte>)
    requires IsAddress(address) && |bytes| % 4 == 0 && |BlockPadded(bytes)| < 0x1_0000_0000
    ensures var p := BlockPadded(bytes);
      GctPayload(BlockLines(address, bytes))
        == [0x06] + DecodeString(address).value[1..] + BigEndian(|p|, 4) + p
  {
    var p := BlockPadded(bytes);
    var header := HeaderLine("06", address, |p|);
    assert BlockLines(address, bytes) == [header] + Records(p, |p| / 8);
    BlockKind();
    HeaderLineDecodes("06", address, |p|);
    HeaderAndRecordsPayload(header, p);
  }

  /** An empty block is not an error: it is the header alone, with a zero count. */
  lemma EmptyBlock(address: string)
    requires |address| >= 2
    ensures BlockLines(address, []) == ["06" + ToUpper(address[2..]) + " 00000000"]
  {
    var empty: seq<Byte> := [];
    assert BlockPadded(empty) == empty;
    assert BlockLines(address, empty) == [HeaderLine("06", address, 0)] + Records(empty, 0);
    assert FormatHex(0, 1) == "0";
    assert FormatHex(0, 2) == "00";
    assert FormatHex(0, 3) == "000";
    assert FormatHex(0, 4) == "0000";
    assert FormatHex(0, 5) == "00000";
    assert FormatHex(0, 6) == "000000";
    assert FormatHex(0, 7) == "0000000";
    assert FormatHex(0, 8) == "00000000";
    assert HeaderLine("06", address, 0) == "06" + ToUpper(address[2..]) + " " + "00000000";
    assert " " + "00000000" == " 00000000";
    var h := "06" + ToUpper(address[2..]) + " 00000000";
    assert HeaderLine("06", address, 0) == h;
    assert Records(empty, 0) == [];
    assert BlockLines(address, empty) == [h];
  }

  /** The `i`-th record line holds bytes `[8i, 8i+8)` of the padded code. */
  lemma {:induction false} RecordsIndex(p: seq<Byte>, n: nat, i: nat)
    requires 8 * n <= |p| && i < n
    ensures Records(p, n)[i] == RecordLine(p[8 * i..8 * i + 8])
  {
    var init, last := Records(p, n - 1), RecordLine(p[8 * (n - 1)..8 * n]);
    assert Records(p, n) == init + [last];
    if i < n - 1 {
      RecordsIndex(p, n - 1, i);
      assert (init + [last])[i] == init[i];
    } else {
      assert 8 * i == 8 * (n - 1) && 8 * i + 8 == 8 * n;
    }
  }

  /** The last line of an injection of more than one word ends in the zero word `00000000`. */
  lemma InjectionEndsWithZeroWord(address: string, file: string, bytes: seq<Byte>)
    requires |address| >= 2 && |bytes| % 4 == 0 && |bytes| > 4
    ensures var lines := InjectionCodeLines(address, file, bytes).value;
      lines[|lines| - 1][9..] == "00000000"
  {
    var p := InjectionPadded(bytes);
    var m := |p| / 8;
    assert 8 * m == |p|;
    var w := p[8 * (m - 1)..8 * m];
    assert InjectionCodeLines(address, file, bytes).value == [HeaderLine("C2", address, m)] + Records(p, m);
    RecordsIndex(p, m, m - 1);
    assert w[4..] == ZeroWord;
    RecordLineRight(w);
    ZeroWordText();
  }

  lemma RecordLineRight(w: seq<Byte>)
    requires |w| == 8
    ensures RecordLine(w)[9..] == ToUpper(EncodeToString(w[4..]))
  {
  }

  lemma ZeroWordText()
    ensures ToUpper(EncodeToString(ZeroWord)) == "00000000"
  {
    assert EncodeToString(ZeroWord) == "00000000";
    ToUpperOfUpper("00000000");
  }
}
