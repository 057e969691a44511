/**
 * The single-line Gecko codes: a `04` write of a 32-bit value, a `04` write of a
 * branch instruction, and the ` #annotation` a line may carry.
 */
module Encoder {
  import opened Results
  import opened Hex
  import opened Model
  import opened Serializer

  /** Go's `uint64`: the branch displacement is computed in it, wrapping modulo 2^64. */
  type Uint64 = x: int | 0 <= x < 0x1_0000_0000_0000_0000

  const Bits24 := 0x100_0000

  /** `a - b` on `uint64`. */
  function Sub64(a: Uint64, b: Uint64): Uint64 {
    (a - b) % 0x1_0000_0000_0000_0000
  }

  /** `a + b` on `uint64`. */
  function Add64(a: Uint64, b: Uint64): Uint64 {
    (a + b) % 0x1_0000_0000_0000_0000
  }

  /** A `04` code: the address without its first two digits, then the value, both upper-cased. */
  function ReplaceCodeLine(address: string, value: string): string
    requires |address| >= 2
  {
    "04" + ToUpper(address[2..]) + " " + ToUpper(value)
  }

  /**
   * A `04` code writing a branch from `address` to `targetAddress`. The sign test is
   * made on an unsigned difference, so the prefix is always `48`.
   */
  function BranchCodeLine(address: string, targetAddress: string, shouldLink: bool): string
    requires ParsableAddress(address) && ParsableAddress(targetAddress)
  {
    var addressValue := ParseUint32(address[2..]).value;
    var targetValue := ParseUint32(targetAddress[2..]).value;
    var diff := Sub64(targetValue, addressValue);
    var prefix := if diff < 0 then "4B" else "48";
    var linked := if shouldLink then Add64(diff, 1) else diff;
    var digits := FormatHex(linked, 6);
    "04" + ToUpper(address[2..]) + " " + prefix + digits[|digits| - 6..]
  }

  /** Appends ` #annotation` when there is one; the line itself is kept as the prefix. */
  function AddLineAnnotation(line: string, annotation: string): (r: string)
    ensures |r| >= |line| && r[..|line|] == line
    ensures annotation == "" ==> r == line
    ensures annotation != "" ==> |r| == |line| + 2 + |annotation| && r[|line|..] == " #" + annotation
  {
    if annotation == "" then line else line + " #" + annotation
  }

  /**
   * The low 24 bits of a branch instruction, by their meaning: the distance from
   * the address to the target (the digits after the first two), plus one for a link.
   */
  function BranchOffset(address: string, targetAddress: string, shouldLink: bool): (off: nat)
    requires ParsableAddress(address) && ParsableAddress(targetAddress)
    ensures off < Bits24
  {
    (HexValue(targetAddress[2..]) - HexValue(address[2..]) + (if shouldLink then 1 else 0)) % Bits24
  }

  // ---------------------------------------------------------------------------
  // Replace lines

  /** For an 8-digit address the tag field is `04` and the six low address digits; the payload follows the space. */
  lemma ReplaceLineFormat(address: string, value: string)
    requires IsAddress(address)
    ensures var line := ReplaceCodeLine(address, value);
      && |line| == 9 + |value|
      && line[..8] == "04" + ToUpper(address[2..])
      && line[8] == ' '
      && line[9..] == ToUpper(value)
  {
  }

  /** The code-type digits and the low address digits decode to the type byte and the low address bytes. */
  lemma DecodeTag(kind: string, address: string)
    requires |kind| == 2 && AllHex(kind) && IsAddress(address)
    ensures DecodeString(kind + ToUpper(address[2..]))
         == Some(DecodeString(kind).value + DecodeString(address).value[1..])
  {
    DecodeUpper(address[2..]);
    DecodeDropByte(address);
    DecodeConcat(kind, ToUpper(address[2..]));
  }

  /** The GCT reads a replace line back as `04`, the low three address bytes and the four value bytes. */
  lemma ReplaceLineDecodes(address: string, value: string)
    requires IsAddress(address) && |value| == 8 && AllHex(value)
    ensures DecodeLine(ReplaceCodeLine(address, value))
         == Some([0x04] + DecodeString(address).value[1..] + DecodeString(value).value)
  {
    var head, upper := "04" + ToUpper(address[2..]), ToUpper(value);
    DecodeFields(head, upper);
    DecodeByte('0', '4');
    assert "04" == ['0', '4'];
    DecodeTag("04", address);
    DecodeUpper(value);
    DecodeConcat(head, upper);
  }

  // ---------------------------------------------------------------------------
  // Branch lines

  lemma ModOfMod(x: int)
    ensures (x % 0x1_0000_0000_0000_0000) % Bits24 == x % Bits24
  {
    var M := 0x1_0000_0000_0000_0000;
    var q, r := x / M, x % M;
    var q', r' := r / Bits24, r % Bits24;
    assert x == q * M + r;
    assert r == q' * Bits24 + r';
    DivModUnique(x, Bits24, q * 0x100_0000_0000 + q', r');
  }

  /** Adding a multiple of 2^64 does not change the low 24 bits. */
  lemma ModMultiple(x: int, k: int)
    ensures (x + k * 0x1_0000_0000_0000_0000) % Bits24 == x % Bits24
  {
    var q, r := x / Bits24, x % Bits24;
    assert x + k * 0x1_0000_0000_0000_0000 == (q + k * 0x100_0000_0000) * Bits24 + r;
    DivModUnique(x + k * 0x1_0000_0000_0000_0000, Bits24, q + k * 0x100_0000_0000, r);
  }

  /** The `uint64` arithmetic of the branch agrees with the exact difference in its low 24 bits. */
  lemma Low24OfUint64(a: Uint64, t: Uint64, shouldLink: bool)
    ensures (if shouldLink then Add64(Sub64(t, a), 1) else Sub64(t, a)) % Bits24
         == (t - a + (if shouldLink then 1 else 0)) % Bits24
  {
    var x := t - a;
    ModOfMod(x);
    if shouldLink {
      var d: int := Sub64(t, a);
      ModOfMod(d + 1);
      assert d + 1 == (x + 1) + (-(x / 0x1_0000_0000_0000_0000)) * 0x1_0000_0000_0000_0000;
      ModMultiple(x + 1, -(x / 0x1_0000_0000_0000_0000));
    }
  }

  /** The text of a branch line, with its last six digits taken as `FormatHex` of the low 24 bits. */
  lemma BranchLineText(address: string, targetAddress: string, shouldLink: bool)
    requires ParsableAddress(address) && ParsableAddress(targetAddress)
    ensures var a := ParseUint32(address[2..]).value;
      var t := ParseUint32(targetAddress[2..]).value;
      var linked := if shouldLink then Add64(Sub64(t, a), 1) else Sub64(t, a);
      BranchCodeLine(address, targetAddress, shouldLink)
        == "04" + ToUpper(address[2..]) + " 48" + FormatHex(linked % Bits24, 6)
  {
    var a := ParseUint32(address[2..]).value;
    var t := ParseUint32(targetAddress[2..]).value;
    var linked := if shouldLink then Add64(Sub64(t, a), 1) else Sub64(t, a);
    assert Pow16(6) == Bits24;
    FormatHexSuffix(linked, 6, 6);
  }

  /** The `uint64` value the branch formats, reduced to 24 bits, is the offset. */
  lemma LinkedLow24(address: string, targetAddress: string, shouldLink: bool)
    requires ParsableAddress(address) && ParsableAddress(targetAddress)
    ensures var a := ParseUint32(address[2..]).value;
      var t := ParseUint32(targetAddress[2..]).value;
      (if shouldLink then Add64(Sub64(t, a), 1) else Sub64(t, a)) % Bits24
        == BranchOffset(address, targetAddress, shouldLink)
  {
    var a := ParseUint32(address[2..]).value;
    var t := ParseUint32(targetAddress[2..]).value;
    assert a == HexValue(address[2..]) && t == HexValue(targetAddress[2..]);
    Low24OfUint64(a, t, shouldLink);
  }

  lemma Pow16Six()
    ensures Pow16(6) == Bits24
  {
  }

  /** A branch line is `04`, the low address digits, and `48` followed by the six digits of the offset. */
  lemma BranchLineFormat(address: string, targetAddress: string, shouldLink: bool)
    requires ParsableAddress(address) && ParsableAddress(targetAddress)
    ensures |FormatHex(BranchOffset(address, targetAddress, shouldLink), 6)| == 6
    ensures BranchCodeLine(address, targetAddress, shouldLink)
         == "04" + ToUpper(address[2..]) + " 48" + FormatHex(BranchOffset(address, targetAddress, shouldLink), 6)
  {
    BranchLineText(address, targetAddress, shouldLink);
    LinkedLow24(address, targetAddress, shouldLink);
    Pow16Six();
    FormatHexLength(BranchOffset(address, targetAddress, shouldLink), 6);
  }

  /** Branch-and-link encodes one more than the plain branch, modulo 2^24. */
  lemma BranchAndLinkAddsOne(address: string, targetAddress: string)
    requires ParsableAddress(address) && ParsableAddress(targetAddress)
    ensures BranchCodeLine(address, targetAddress, true)
         == "04" + ToUpper(address[2..]) + " 48"
            + FormatHex((BranchOffset(address, targetAddress, false) + 1) % Bits24, 6)
  {
    BranchLineFormat(address, targetAddress, true);
    Mod24Succ(HexValue(targetAddress[2..]) - HexValue(address[2..]));
  }

  lemma Mod24Succ(d: int)
    ensures (d % Bits24 + 1) % Bits24 == (d + 1) % Bits24
  {
    var q, r := d / Bits24, d % Bits24;
    assert d + 1 == q * Bits24 + (r + 1);
    if r + 1 < Bits24 {
      DivModUnique(d + 1, Bits24, q, r + 1);
    } else {
      assert d + 1 == (q + 1) * Bits24 + 0;
      DivModUnique(d + 1, Bits24, q + 1, 0);
    }
  }

  /** A branch to its own address is `48000000`, and `48000001` with the link bit. */
  lemma BranchToSelf(address: string, targetAddress: string)
    requires ParsableAddress(address) && |targetAddress| >= 2 && targetAddress[2..] == address[2..]
    ensures BranchCodeLine(address, targetAddress, false) == "04" + ToUpper(address[2..]) + " 48000000"
    ensures BranchCodeLine(address, targetAddress, true) == "04" + ToUpper(address[2..]) + " 48000001"
  {
    BranchLineFormat(address, targetAddress, false);
    BranchLineFormat(address, targetAddress, true);
    assert BranchOffset(address, targetAddress, false) == 0;
    assert BranchOffset(address, targetAddress, true) == 1;
    SixDigitsZeroOne();
  }

  /**
   * As written, a target below the address still gets prefix `48`: the low 24 bits hold
   * 2^24 minus the distance, which the loader reads as a forward branch.
   */
  lemma BackwardBranchKeepsForwardPrefix(address: string, targetAddress: string)
    requires ParsableAddress(address) && ParsableAddress(targetAddress)
    requires 0 < HexValue(address[2..]) - HexValue(targetAddress[2..]) < Bits24
    ensures BranchCodeLine(address, targetAddress, false)
         == "04" + ToUpper(address[2..]) + " 48"
            + FormatHex(Bits24 - (HexValue(address[2..]) - HexValue(targetAddress[2..])), 6)
  {
    BranchLineFormat(address, targetAddress, false);
    var d := HexValue(address[2..]) - HexValue(targetAddress[2..]);
    DivModUnique(-d, Bits24, -1, Bits24 - d);
  }

  /** The instruction field of a branch line decodes to `48` and the offset's three bytes. */
  lemma BranchWordDecodes(off: nat)
    requires off < Bits24
    ensures |FormatHex(off, 6)| == 6
    ensures DecodeString("48" + FormatHex(off, 6)) == Some([0x48] + BigEndian(off, 3))
  {
    assert Pow16(6) == Bits24;
    FormatHexLength(off, 6);
    DecodeFormatHex(off, 3);
    DecodeByte('4', '8');
    assert "48" == ['4', '8'];
    DecodeConcat("48", FormatHex(off, 6));
  }

  /** The `04` tag field of an 8-digit address decodes to `04` and the low three address bytes. */
  lemma ReplaceTagDecodes(address: string)
    requires IsAddress(address)
    ensures |"04" + ToUpper(address[2..])| == 8
    ensures DecodeString("04" + ToUpper(address[2..])) == Some([0x04] + DecodeString(address).value[1..])
  {
    DecodeByte('0', '4');
    assert "04" == ['0', '4'];
    DecodeTag("04", address);
  }

  /** A line of two decodable 8-digit fields reads as the bytes of both. */
  lemma FieldsDecode(head: string, word: string, x: seq<Byte>, y: seq<Byte>)
    requires |head| == 8 && |word| == 8
    requires DecodeString(head) == Some(x) && DecodeString(word) == Some(y)
    ensures DecodeLine(head + " " + word) == Some(x + y)
  {
    DecodeFields(head, word);
    DecodeConcat(head, word);
  }

  lemma SplitBranchField(head: string, digits: string)
    ensures head + " 48" + digits == head + " " + ("48" + digits)
  {
    assert " 48" == " " + "48";
  }

  /** The GCT reads a branch line back as `04`, the low address bytes, `48` and the offset's three bytes. */
  lemma BranchLineDecodes(address: string, targetAddress: string, shouldLink: bool)
    requires IsAddress(address) && IsAddress(targetAddress)
    ensures ParsableAddress(address) && ParsableAddress(targetAddress)
    ensures DecodeLine(BranchCodeLine(address, targetAddress, shouldLink))
         == Some([0x04] + DecodeString(address).value[1..] + [0x48]
                 + BigEndian(BranchOffset(address, targetAddress, shouldLink), 3))
  {
    AddressIsParsable(address);
    AddressIsParsable(targetAddress);
    BranchLineFormat(address, targetAddress, shouldLink);
    var off := BranchOffset(address, targetAddress, shouldLink);
    var head, digits := "04" + ToUpper(address[2..]), FormatHex(off, 6);
    SplitBranchField(head, digits);
    BranchWordDecodes(off);
    ReplaceTagDecodes(address);
    var tag := [0x04] + DecodeString(address).value[1..];
    FieldsDecode(head, "48" + digits, tag, [0x48] + BigEndian(off, 3));
    BytesAssoc(tag, [0x48], BigEndian(off, 3));
  }

  // ---------------------------------------------------------------------------
  // Annotations

  /** The annotation of a multi-line entry goes on its first line only. */
  function AnnotateFirst(lines: seq<string>, annotation: string): (r: seq<string>)
    requires |lines| >= 1
    ensures |r| == |lines| && r[1..] == lines[1..]
    ensures r[0] == AddLineAnnotation(lines[0], annotation)
  {
    [AddLineAnnotation(lines[0], annotation)] + lines[1..]
  }

  /**
   * An annotation never changes what the GCT reads from a line: a kept line keeps its
   * first 17 characters, and on a shorter line the ` #` lands inside a hex field.
   */
  lemma AnnotationKeepsGct(line: string, annotation: string)
    ensures DecodeLine(AddLineAnnotation(line, annotation)) == DecodeLine(line)
  {
    var r := AddLineAnnotation(line, annotation);
    if annotation != "" {
      assert r == line + " #" + annotation;
      if |line| >= 17 {
        assert r == line + (" #" + annotation);
        DecodeLinePrefix(line, " #" + annotation);
      } else if |r| >= 17 {
        var n := |line|;
        assert r[n] == ' ' && r[n + 1] == '#';
        if n < 8 {
          assert r[0..8][n] == ' ';
        } else if n == 8 {
          assert r[9..17][0] == '#';
        } else {
          assert r[9..17][n - 9] == ' ';
        }
      }
    }
  }

  lemma HeadTail(lines: seq<string>)
    requires |lines| >= 1
    ensures lines == [lines[0]] + lines[1..]
  {
  }

  /** Annotating the first line of an entry leaves the bytes the GCT reads from the entry unchanged. */
  lemma AnnotateFirstKeepsGct(lines: seq<string>, annotation: string)
    requires |lines| >= 1
    ensures GctPayload(AnnotateFirst(lines, annotation)) == GctPayload(lines)
  {
    var first := AddLineAnnotation(lines[0], annotation);
    AnnotationKeepsGct(lines[0], annotation);
    HeadTail(lines);
    SameFirstSameGct(first, lines[0], lines[1..]);
  }
}
