/**
 * Line sequencing: the header lines of a code description, the dispatch of each
 * build entry on its type, and `buildBody`, which appends every description's
 * lines to the generator's `output`.
 */
module Sequencer {
  import opened Results
  import opened Hex
  import opened Model
  import opened Serializer
  import opened Encoder
  import opened Packer
  import opened Folder

  // ---------------------------------------------------------------------------
  // Header lines

  function NameLine(desc: CodeDescription): string {
    "$" + desc.name + " [" + Join(desc.authors, ", ") + "]"
  }

  /** The `*` line of every description line, in order. */
  function DescriptionLines(description: seq<string>): (lines: seq<string>)
    ensures |lines| == |description|
    ensures forall i :: 0 <= i < |lines| ==> lines[i] == "*" + description[i]
  {
    if |description| == 0 then []
    else DescriptionLines(description[..|description| - 1]) + ["*" + description[|description| - 1]]
  }

  /** `generateHeaderLines`: the name and authors line, then one `*` line per description line. */
  function HeaderLines(desc: CodeDescription): (lines: seq<string>)
    ensures |lines| == 1 + |desc.description|
  {
    [NameLine(desc)] + DescriptionLines(desc.description)
  }

  /** The name line carries the name and the comma-separated authors; each description line follows with a `*`. */
  lemma HeaderLinesShape(desc: CodeDescription)
    ensures var lines := HeaderLines(desc);
      && lines[0] == "$" + desc.name + " [" + Join(desc.authors, ", ") + "]"
      && forall i :: 0 <= i < |desc.description| ==> lines[i + 1] == "*" + desc.description[i]
  {
    var lines := HeaderLines(desc);
    forall i | 0 <= i < |desc.description| ensures lines[i + 1] == "*" + desc.description[i] {
      assert lines[i + 1] == DescriptionLines(desc.description)[i];
    }
  }

  method GenerateHeaderLines(desc: CodeDescription) returns (result: seq<string>)
    ensures result == HeaderLines(desc)
  {
    var authorString := Join(desc.authors, ", ");
    result := ["$" + desc.name + " [" + authorString + "]"];
    for i := 0 to |desc.description|
      invariant result == [NameLine(desc)] + DescriptionLines(desc.description[..i])
    {
      assert desc.description[..i + 1][..i] == desc.description[..i];
      result := result + ["*" + desc.description[i]];
    }
    assert desc.description[..|desc.description|] == desc.description;
  }

  // ---------------------------------------------------------------------------
  // Code lines

  /** The entry types whose first line carries the configured annotation. */
  predicate Annotated(codeType: string) {
    codeType == Replace || codeType == Inject || codeType == ReplaceCodeBlock
    || codeType == ReplaceBinary || codeType == Branch || codeType == BranchAndLink
  }

  /** The lines an entry produces before its annotation is added; an unknown type produces none. */
  function BareEntryLines(code: GeckoCode, src: Sources): (r: Result<seq<string>, Error>)
    requires WellFormedCode(code) && WordAligned(src)
    ensures r.Ok? && Annotated(code.codeType) ==> |r.value| >= 1
    ensures !Annotated(code.codeType) && code.codeType != InjectFolder ==> r == Ok([])
  {
    var t := code.codeType;
    if t == Replace then Ok([ReplaceCodeLine(code.address, code.value)])
    else if t == Inject then
      var bytes :- Compile(src, code.sourceFile);
      InjectionCodeLines(code.address, code.sourceFile, bytes)
    else if t == ReplaceCodeBlock then
      var bytes :- Compile(src, code.sourceFile);
      Ok(BlockLines(code.address, bytes))
    else if t == ReplaceBinary then
      var bytes :- ReadBinary(src, code.sourceFile);
      Ok(BlockLines(code.address, bytes))
    else if t == Branch || t == BranchAndLink then
      Ok([BranchCodeLine(code.address, code.targetAddress, t == BranchAndLink)])
    else if t == InjectFolder then FolderLines(code.sourceFolder, code.isRecursive, src)
    else Ok([])
  }

  /** The lines of one build entry, its first line annotated unless it is a folder injection. */
  function EntryLines(code: GeckoCode, src: Sources): (r: Result<seq<string>, Error>)
    requires WellFormedCode(code) && WordAligned(src)
  {
    if Annotated(code.codeType) then
      var lines :- BareEntryLines(code, src);
      Ok(AnnotateFirst(lines, code.annotation))
    else BareEntryLines(code, src)
  }

  /** `generateCodeLines`: the entries' lines in declared order, stopping at the first failure. */
  function CodeLines(build: seq<GeckoCode>, src: Sources): Result<seq<string>, Error>
    requires forall i :: 0 <= i < |build| ==> WellFormedCode(build[i])
    requires WordAligned(src)
  {
    if |build| == 0 then Ok([])
    else
      var init :- CodeLines(build[..|build| - 1], src);
      var last :- EntryLines(build[|build| - 1], src);
      Ok(init + last)
  }

  /** One case of the `switch` of `generateCodeLines`. */
  method GenerateEntryLines(code: GeckoCode, src: Sources) returns (r: Result<seq<string>, Error>)
    requires WellFormedCode(code) && WordAligned(src)
    ensures r == EntryLines(code, src)
  {
    var t := code.codeType;
    if t == Replace {
      var line := ReplaceCodeLine(code.address, code.value);
      assert BareEntryLines(code, src) == Ok([line]);
      assert AnnotateFirst([line], code.annotation) == [AddLineAnnotation(line, code.annotation)];
      line := AddLineAnnotation(line, code.annotation);
      return Ok([line]);
    } else if t == Inject {
      var instructions := Compile(src, code.sourceFile);
      if instructions.Err? {
        return Err(instructions.error);
      }
      var lines := GenerateInjectionCodeLines(code.address, code.sourceFile, instructions.value);
      if lines.Err? {
        return lines;
      }
      return Ok(AnnotateFirst(lines.value, code.annotation));
    } else if t == ReplaceCodeBlock || t == ReplaceBinary {
      var instructions := if t == ReplaceCodeBlock then Compile(src, code.sourceFile)
                          else ReadBinary(src, code.sourceFile);
      if instructions.Err? {
        return Err(instructions.error);
      }
      var lines := GenerateBlockLines(code.address, instructions.value);
      return Ok(AnnotateFirst(lines, code.annotation));
    } else if t == Branch || t == BranchAndLink {
      var shouldLink := t == BranchAndLink;
      var line := BranchCodeLine(code.address, code.targetAddress, shouldLink);
      assert BareEntryLines(code, src) == Ok([line]);
      assert AnnotateFirst([line], code.annotation) == [AddLineAnnotation(line, code.annotation)];
      line := AddLineAnnotation(line, code.annotation);
      return Ok([line]);
    } else if t == InjectFolder {
      r := GenerateInjectionFolderLines(code.sourceFolder, code.isRecursive, src);
    } else {
      return Ok([]);
    }
  }

  method GenerateCodeLines(desc: CodeDescription, src: Sources) returns (r: Result<seq<string>, Error>)
    requires WellFormedDescription(desc) && WordAligned(src)
    ensures r == CodeLines(desc.build, src)
  {
    var result: seq<string> := [];
    for i := 0 to |desc.build|
      invariant CodeLines(desc.build[..i], src) == Ok(result)
    {
      assert desc.build[..i + 1][..i] == desc.build[..i];
      var lines := GenerateEntryLines(desc.build[i], src);
      if lines.Err? {
        CodeFailurePersists(desc.build, i + 1, src);
        return Err(lines.error);
      }
      result := result + lines.value;
    }
    assert desc.build[..|desc.build|] == desc.build;
    return Ok(result);
  }

  // ---------------------------------------------------------------------------
  // The body

  /**
   * What `buildBody` appends to the output, and the failure that stopped it, if any.
   * A failing description leaves its header lines behind: they are appended before its
   * code lines are generated.
   */
  datatype Emission = Emission(lines: seq<string>, failure: Option<Error>)

  /** What one description appends: its header, code lines and a blank line, or on failure its header alone. */
  function Section(desc: CodeDescription, src: Sources): (e: Emission)
    requires WellFormedDescription(desc) && WordAligned(src)
    ensures e.failure.None? <==> CodeLines(desc.build, src).Ok?
    ensures |e.lines| >= |HeaderLines(desc)| && e.lines[..|HeaderLines(desc)|] == HeaderLines(desc)
    ensures e.failure.None? ==> e.lines[|e.lines| - 1] == ""
    ensures CodeLines(desc.build, src).Ok? ==> e.lines == HeaderLines(desc) + CodeLines(desc.build, src).value + [""]
    ensures CodeLines(desc.build, src).Err? ==> e == Emission(HeaderLines(desc), Some(CodeLines(desc.build, src).error))
  {
    match CodeLines(desc.build, src)
    case Err(error) => Emission(HeaderLines(desc), Some(error))
    case Ok(code) => Emission(HeaderLines(desc) + code + [""], None)
  }

  /** `buildBody`: the sections of the descriptions in input order, up to and including the first failing one. */
  function Body(codes: seq<CodeDescription>, src: Sources): (e: Emission)
    requires WellFormedCodes(codes)
    requires WordAligned(src)
  {
    if |codes| == 0 then Emission([], None)
    else
      var init := Body(codes[..|codes| - 1], src);
      if init.failure.Some? then init
      else
        var section := Section(codes[|codes| - 1], src);
        Emission(init.lines + section.lines, section.failure)
  }

  /** The generator's state: the package-level `output` slice. */
  class Gecko {
    var output: seq<string>

    constructor()
      ensures output == []
    {
      output := [];
    }

    /** `buildBody`: appends every description's lines, stopping at the first failure. */
    method BuildBody(config: Config, src: Sources) returns (failure: Option<Error>)
      requires WellFormedConfig(config) && WordAligned(src)
      modifies this
      ensures output == old(output) + Body(config.codes, src).lines
      ensures failure == Body(config.codes, src).failure
    {
      var codes := config.codes;
      for i := 0 to |codes|
        invariant Body(codes[..i], src).failure.None?
        invariant output == old(output) + Body(codes[..i], src).lines
      {
        var code := codes[i];
        ghost var start, before := old(output), Body(codes[..i], src).lines;
        BodyStep(codes, i, src);
        var headerLines := GenerateHeaderLines(code);
        output := output + headerLines;
        var codeLines := GenerateCodeLines(code, src);
        if codeLines.Err? {
          ConcatAssoc(start, before, headerLines);
          BodyFailurePersists(codes, i + 1, src);
          return Some(codeLines.error);
        }
        output := output + codeLines.value;
        output := output + [""];
        AppendAssoc(start, before, headerLines, codeLines.value);
      }
      assert codes[..|codes|] == codes;
      return None;
    }
  }

  lemma ConcatAssoc(start: seq<string>, before: seq<string>, header: seq<string>)
    ensures start + before + header == start + (before + header)
  {
  }

  lemma AppendAssoc(start: seq<string>, before: seq<string>, header: seq<string>, code: seq<string>)
    ensures start + before + header + code + [""] == start + (before + header + code + [""])
  {
  }

  // ---------------------------------------------------------------------------
  // Lemmas

  lemma {:induction false} CodeFailurePersists(build: seq<GeckoCode>, k: nat, src: Sources)
    requires forall i :: 0 <= i < |build| ==> WellFormedCode(build[i])
    requires WordAligned(src) && k <= |build| && CodeLines(build[..k], src).Err?
    ensures CodeLines(build, src) == CodeLines(build[..k], src)
    decreases |build|
  {
    if k < |build| {
      var init := build[..|build| - 1];
      assert init[..k] == build[..k];
      CodeFailurePersists(init, k, src);
    } else {
      assert build[..k] == build;
    }
  }

  lemma {:induction false} BodyFailurePersists(codes: seq<CodeDescription>, k: nat, src: Sources)
    requires WellFormedCodes(codes)
    requires WordAligned(src) && k <= |codes| && Body(codes[..k], src).failure.Some?
    ensures Body(codes, src) == Body(codes[..k], src)
    decreases |codes|
  {
    if k < |codes| {
      var init := codes[..|codes| - 1];
      assert init[..k] == codes[..k];
      BodyFailurePersists(init, k, src);
    } else {
      assert codes[..k] == codes;
    }
  }

  /** The body of the first `i + 1` descriptions, from the body of the first `i` when those did not fail. */
  lemma BodyStep(codes: seq<CodeDescription>, i: nat, src: Sources)
    requires WellFormedCodes(codes) && WordAligned(src) && i < |codes|
    requires Body(codes[..i], src).failure.None?
    ensures var before, code := Body(codes[..i], src).lines, CodeLines(codes[i].build, src);
      Body(codes[..i + 1], src)
        == if code.Ok? then Emission(before + HeaderLines(codes[i]) + code.value + [""], None)
           else Emission(before + HeaderLines(codes[i]), Some(code.error))
  {
    PrefixSnoc(codes, i);
    BodySnoc(codes[..i], codes[i], src);
  }

  lemma PrefixSnoc(codes: seq<CodeDescription>, i: nat)
    requires i < |codes|
    ensures codes[..i] + [codes[i]] == codes[..i + 1]
  {
  }

  /**
   * Sequencing: the body of `a + b` is the body of `a` followed by the body of `b`,
   * unless `a` already failed, in which case nothing of `b` is appended.
   */
  lemma WellFormedConcat(a: seq<CodeDescription>, b: seq<CodeDescription>)
    requires WellFormedCodes(a) && WellFormedCodes(b)
    ensures WellFormedCodes(a + b)
  {
    forall i | 0 <= i < |a + b| ensures WellFormedDescription((a + b)[i]) {
      if i < |a| {
        assert (a + b)[i] == a[i];
      } else {
        assert (a + b)[i] == b[i - |a|];
      }
    }
  }

  /** `Body` of a list grown by one description. */
  lemma BodySnoc(codes: seq<CodeDescription>, desc: CodeDescription, src: Sources)
    requires WellFormedCodes(codes) && WellFormedDescription(desc) && WordAligned(src)
    ensures WellFormedCodes(codes + [desc])
    ensures var init, section := Body(codes, src), Section(desc, src);
      Body(codes + [desc], src)
        == if init.failure.Some? then init else Emission(init.lines + section.lines, section.failure)
  {
    WellFormedConcat(codes, [desc]);
    var all := codes + [desc];
    assert all[..|all| - 1] == codes;
    assert all[|all| - 1] == desc;
  }

  /**
   * Sequencing: the body of `a + b` is the body of `a` followed by the body of `b`,
   * unless `a` already failed, in which case nothing of `b` is appended.
   */
  lemma {:induction false} BodyAppend(a: seq<CodeDescription>, b: seq<CodeDescription>, src: Sources)
    requires WellFormedCodes(a) && WellFormedCodes(b) && WordAligned(src)
    ensures WellFormedCodes(a + b)
    ensures Body(a, src).failure.Some? ==> Body(a + b, src) == Body(a, src)
    ensures Body(a, src).failure.None? ==>
              Body(a + b, src) == Emission(Body(a, src).lines + Body(b, src).lines, Body(b, src).failure)
    decreases |b|
  {
    WellFormedConcat(a, b);
    if |b| == 0 {
      assert a + b == a;
    } else {
      var b', desc := b[..|b| - 1], b[|b| - 1];
      assert b' + [desc] == b;
      assert WellFormedCodes(b');
      var ab' := a + b';
      assert ab' + [desc] == a + b;
      BodyAppend(a, b', src);
      BodySnoc(ab', desc, src);
      if Body(a, src).failure.None? && Body(b', src).failure.None? {
        BodyAppendStep(Body(a, src), Body(b', src), Section(desc, src), Body(ab', src), Body(b, src), Body(a + b, src));
      } else if Body(a, src).failure.None? {
        BodySnoc(b', desc, src);
      }
    }
  }

  /** The associativity step of `BodyAppend`, kept apart from the definitions of the sections. */
  lemma BodyAppendStep(bodyA: Emission, bodyB': Emission, section: Emission, bodyAB': Emission, bodyB: Emission, bodyAB: Emission)
    requires bodyAB' == Emission(bodyA.lines + bodyB'.lines, None)
    requires bodyB == Emission(bodyB'.lines + section.lines, section.failure)
    requires bodyAB == Emission(bodyAB'.lines + section.lines, section.failure)
    ensures bodyAB == Emission(bodyA.lines + bodyB.lines, bodyB.failure)
  {
    assert (bodyA.lines + bodyB'.lines) + section.lines == bodyA.lines + (bodyB'.lines + section.lines);
  }

  /** One description: its header, its code lines and one blank line; or, on failure, its header alone. */
  lemma BodyOfOne(desc: CodeDescription, src: Sources)
    requires WellFormedDescription(desc) && WordAligned(src)
    ensures var code := CodeLines(desc.build, src);
      Body([desc], src) == if code.Ok? then Emission(HeaderLines(desc) + code.value + [""], None)
                           else Emission(HeaderLines(desc), Some(code.error))
  {
    assert [desc][..0] == [];
    assert Body([desc], src) == Emission([] + Section(desc, src).lines, Section(desc, src).failure);
  }

  /** Header lines never reach the GCT container. */
  lemma HeaderLinesNotInGct(desc: CodeDescription)
    ensures GctPayload(HeaderLines(desc)) == []
  {
    var lines := HeaderLines(desc);
    forall i | 0 <= i < |lines| ensures DecodeLine(lines[i]).None? {
      NonCodeLineSkipped(lines[i]);
    }
    NoCodeLinesNoPayload(lines);
  }

  /** An entry of an unrecognised type adds no lines. */
  lemma UnknownTypeNoLines(code: GeckoCode, src: Sources)
    requires WellFormedCode(code) && WordAligned(src)
    requires !Annotated(code.codeType) && code.codeType != InjectFolder
    ensures EntryLines(code, src) == Ok([])
  {
  }

  /** Only the first line of an entry carries its annotation; the others are as generated. */
  lemma OnlyFirstLineAnnotated(code: GeckoCode, src: Sources)
    requires WellFormedCode(code) && WordAligned(src) && Annotated(code.codeType)
    requires BareEntryLines(code, src).Ok?
    ensures var bare, lines := BareEntryLines(code, src).value, EntryLines(code, src).value;
      |lines| == |bare| && lines[0] == AddLineAnnotation(bare[0], code.annotation) && lines[1..] == bare[1..]
  {
  }

  /** A folder injection ignores the configured annotation: its files carry their paths instead. */
  lemma FolderIgnoresAnnotation(code: GeckoCode, annotation: string, src: Sources)
    requires WellFormedCode(code) && WordAligned(src) && code.codeType == InjectFolder
    ensures WellFormedCode(code.(annotation := annotation))
    ensures EntryLines(code.(annotation := annotation), src) == EntryLines(code, src)
    ensures EntryLines(code, src) == FolderLines(code.sourceFolder, code.isRecursive, src)
  {
  }

  /** The annotation of an entry never changes what the GCT reads from it. */
  lemma AnnotationNotInGct(code: GeckoCode, src: Sources)
    requires WellFormedCode(code) && WordAligned(src) && EntryLines(code, src).Ok?
    ensures BareEntryLines(code, src).Ok?
    ensures GctPayload(EntryLines(code, src).value) == GctPayload(BareEntryLines(code, src).value)
  {
    if Annotated(code.codeType) {
      AnnotateFirstKeepsGct(BareEntryLines(code, src).value, code.annotation);
    }
  }

  /** The lines of the worked example below. */
  const ExampleLines: seq<string> := ["$Name [Author]", "*Desc", "04001234 60000000 #nop", ""]

  /** The replace entry of the worked example and its one description. */
  const ExampleCode := GeckoCode(Replace, "80001234", "", "nop", false, "", "", "60000000")
  const ExampleDescription := CodeDescription("Name", ["Author"], ["Desc"], [ExampleCode])

  /** The replace line of the worked example, before its annotation. */
  lemma ExampleReplaceLine()
    ensures ReplaceCodeLine("80001234", "60000000") == "04001234 60000000"
  {
    ToUpperOfUpper("001234");
    ToUpperOfUpper("60000000");
    assert "80001234"[2..] == "001234";
    assert "04" + "001234" + " " + "60000000" == "04001234 60000000";
  }

  /** The replace entry gives one line, annotated with ` #nop`. */
  lemma ExampleEntry(src: Sources)
    requires WordAligned(src)
    ensures CodeLines([ExampleCode], src) == Ok(["04001234 60000000 #nop"])
  {
    var code := ExampleCode;
    var bare := "04001234 60000000";
    ExampleWellFormed();
    ExampleReplaceLine();
    var line := bare + " #nop";
    assert line == "04001234 60000000 #nop";
    assert AddLineAnnotation(bare, "nop") == line;
    assert BareEntryLines(code, src) == Ok([bare]);
    assert AnnotateFirst([bare], "nop") == [line];
    assert EntryLines(code, src) == Ok([line]);
    assert [code][..0] == [];
    assert CodeLines([code][..0], src) == Ok([]);
    var none: seq<string> := [];
    assert CodeLines([code], src) == Ok(none + [line]);
    assert none + [line] == [line];
  }

  /** The header of the worked example: the name line and one description line. */
  lemma ExampleHeader()
    ensures HeaderLines(ExampleDescription) == ["$Name [Author]", "*Desc"]
  {
    var desc := ExampleDescription;
    assert Join(["Author"], ", ") == "Author";
    assert "$" + "Name" + " [" + "Author" + "]" == "$Name [Author]";
    assert NameLine(desc) == "$Name [Author]";
    assert ["Desc"][..0] == [];
    assert DescriptionLines(["Desc"][..0]) == [];
    assert "*" + "Desc" == "*Desc";
    assert DescriptionLines(["Desc"]) == [] + ["*Desc"];
  }

  /** The example entry and description are well formed. */
  lemma ExampleWellFormed()
    ensures WellFormedCode(ExampleCode) && WellFormedDescription(ExampleDescription)
    ensures WellFormedCodes([ExampleDescription])
  {
    assert ExampleCode.codeType == Replace;
    assert [ExampleDescription][0] == ExampleDescription;
  }

  /** The worked example's lines are its header, its one entry line and a blank line. */
  lemma ExampleLinesSplit()
    ensures ["$Name [Author]", "*Desc"] + ["04001234 60000000 #nop"] + [""] == ExampleLines
  {
  }

  /** A description whose code lines are generated: the body is its header, the lines and a blank line. */
  lemma BodyOfOneOk(desc: CodeDescription, src: Sources, header: seq<string>, code: seq<string>)
    requires WellFormedDescription(desc) && WordAligned(src)
    requires HeaderLines(desc) == header && CodeLines(desc.build, src) == Ok(code)
    ensures Body([desc], src) == Emission(header + code + [""], None)
  {
    BodyOfOne(desc, src);
  }

  /**
   * A worked example: one description with one annotated replace entry gives its name
   * line, its description line, the annotated `04` line and a blank line.
   */
  lemma ReplaceExample(src: Sources)
    requires WordAligned(src)
    ensures Body([ExampleDescription], src) == Emission(ExampleLines, None)
  {
    ExampleWellFormed();
    ExampleEntry(src);
    ExampleHeader();
    BodyOfOneOk(ExampleDescription, src, ["$Name [Author]", "*Desc"], ["04001234 60000000 #nop"]);
    ExampleLinesSplit();
  }

  /** One more part adds the separator and the part. */
  lemma JoinSnoc(init: seq<string>, part: string, sep: string)
    requires |init| >= 1
    ensures Join(init + [part], sep) == Join(init, sep) + sep + part
  {
    assert (init + [part])[..|init|] == init;
  }

  /** The text rendering of the worked example: its lines joined by newlines, ending in the blank line. */
  lemma ExampleText()
    ensures TextOutput(ExampleLines) == "$Name [Author]" + "\n" + "*Desc" + "\n" + "04001234 60000000 #nop" + "\n"
  {
    var a, b, c, d := "$Name [Author]", "*Desc", "04001234 60000000 #nop", "";
    JoinSnoc([a], b, "\n");
    assert [a] + [b] == [a, b];
    JoinSnoc([a, b], c, "\n");
    assert [a, b] + [c] == [a, b, c];
    JoinSnoc([a, b, c], d, "\n");
    assert [a, b, c] + [d] == ExampleLines;
    assert Join([a], "\n") == a;
  }

  lemma ExampleAddressBytes()
    ensures DecodeString("80001234") == Some([0x80, 0x00, 0x12, 0x34])
  {
    DecodeByte('8', '0');
    DecodeByte('0', '0');
    DecodeByte('1', '2');
    DecodeByte('3', '4');
    assert DigitValue('8') == 8 && DigitValue('0') == 0 && DigitValue('1') == 1;
    assert DigitValue('2') == 2 && DigitValue('3') == 3 && DigitValue('4') == 4;
    assert "80" == ['8', '0'] && "00" == ['0', '0'] && "12" == ['1', '2'] && "34" == ['3', '4'];
    assert DecodeString("80") == Some([0x80]);
    assert DecodeString("00") == Some([0x00]);
    assert DecodeString("12") == Some([0x12]);
    assert DecodeString("34") == Some([0x34]);
    DecodeConcat("80", "00");
    assert "80" + "00" == "8000";
    DecodeConcat("8000", "12");
    assert "8000" + "12" == "800012";
    DecodeConcat("800012", "34");
    assert "800012" + "34" == "80001234";
    assert [0x80 as Byte] + [0x00] + [0x12] + [0x34] == [0x80, 0x00, 0x12, 0x34];
  }

  lemma ExampleValueBytes()
    ensures DecodeString("60000000") == Some([0x60, 0x00, 0x00, 0x00])
  {
    DecodeByte('6', '0');
    DecodeByte('0', '0');
    assert DigitValue('6') == 6 && DigitValue('0') == 0;
    assert "60" == ['6', '0'] && "00" == ['0', '0'];
    assert DecodeString("60") == Some([0x60]);
    assert DecodeString("00") == Some([0x00]);
    DecodeConcat("60", "00");
    assert "60" + "00" == "6000";
    DecodeConcat("6000", "00");
    assert "6000" + "00" == "600000";
    DecodeConcat("600000", "00");
    assert "600000" + "00" == "60000000";
    assert [0x60 as Byte] + [0x00] + [0x00] + [0x00] == [0x60, 0x00, 0x00, 0x00];
  }

  /** The two words of the worked example's replace line, as one list of bytes. */
  lemma ExampleLineBytes()
    ensures [0x04 as Byte] + [0x00, 0x12, 0x34] + [0x60, 0x00, 0x00, 0x00] == [0x04, 0x00, 0x12, 0x34, 0x60, 0x00, 0x00, 0x00]
  {
  }

  /** The annotated replace line of the worked example reads as its two words. */
  lemma ExampleCodeLine()
    ensures DecodeLine("04001234 60000000 #nop") == Some([0x04, 0x00, 0x12, 0x34, 0x60, 0x00, 0x00, 0x00])
  {
    var bare := "04001234 60000000";
    ExampleReplaceLine();
    ExampleAddressBytes();
    ExampleValueBytes();
    ReplaceLineDecodes("80001234", "60000000");
    AnnotationKeepsGct(bare, "nop");
    assert AddLineAnnotation(bare, "nop") == "04001234 60000000 #nop";
    ExampleLineBytes();
  }

  /**
   * The GCT reading of the worked example: only the replace line's 8 bytes, so the
   * container (`GctOutput`) is the magic header, these bytes and the footer.
   */
  lemma ExampleGct()
    ensures GctPayload(ExampleLines) == [0x04, 0x00, 0x12, 0x34, 0x60, 0x00, 0x00, 0x00]
  {
    var lines := ExampleLines;
    ExampleCodeLine();
    NonCodeLineSkipped(lines[0]);
    NonCodeLineSkipped(lines[1]);
    NonCodeLineSkipped(lines[3]);
    var none: seq<string> := [];
    GctPayloadSnoc(none, lines[0]);
    assert none + [lines[0]] == [lines[0]];
    GctPayloadSnoc([lines[0]], lines[1]);
    assert [lines[0]] + [lines[1]] == [lines[0], lines[1]];
    GctPayloadSnoc([lines[0], lines[1]], lines[2]);
    assert [lines[0], lines[1]] + [lines[2]] == [lines[0], lines[1], lines[2]];
    GctPayloadSnoc([lines[0], lines[1], lines[2]], lines[3]);
    assert [lines[0], lines[1], lines[2]] + [lines[3]] == lines;
  }
}
