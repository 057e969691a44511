# gecko: a verified model of the Gecko code generator

`gecko build` reads `codes.json`, turns each code description into Gecko code
lines, and writes them either as text or as a GCT container. This project models the line generation and the GCT byte
layout of `gecko.go` in Dafny, and proves what they produce.

- `results.dfy` (module `Results`): `Option` and `Result`, the latter standing for
  the generator's `log.Panic`/`os.Exit` paths.
- `hex.dfy` (module `Hex`): the `encoding/hex` functions the generator uses
  (`EncodeToString`, `DecodeString`), `strings.ToUpper` on ASCII,
  `strconv.ParseUint(s, 16, 32)`, and `fmt`'s `%0<w>X`. It includes their round trips.
- `model.dfy` (module `Model`): the configuration (`Config`, `CodeDescription`,
  `GeckoCode`), the error cases, and the outside world as values. `Sources` holds
  what `compile`, `ioutil.ReadFile` and `ioutil.ReadDir` return. `Entry` is a
  directory tree whose files carry the first line a scanner reads from them.
  `filepath.Ext` and `strings.Join` are also here.
- `encoder.dfy` (module `Encoder`): the `04` replace line, the `04` branch line with
  its `uint64` arithmetic, and `addLineAnnotation`.
- `packer.dfy` (module `Packer`): the `C2` injection and the `06` block write. Each
  is a padding function, a header line and a record loop, written as methods
  proved equal to their functions.
- `folder.dfy` (module `Folder`): `generateInjectionFolderLines` over a directory
  tree: files first, then subfolders, recursively.
- `sequencer.dfy` (module `Sequencer`): `generateHeaderLines`,
  `generateCodeLines`, and `buildBody`. The last appends to the `output` field of
  class `Gecko`, which stands for Go's package-level `output` slice.
- `serializer.dfy` (module `Serializer`): the byte assembly of `writeGctOutput`
  and the join of `writeTextOutput`.

Every loop of the modelled functions is a Dafny loop (the loops of `main` and `compile` are outside the model). Each generating method is proved equal
to a function, and the properties are lemmas about those functions:
- the GCT reads a packer's lines back as the padded machine code;
- an annotation never changes the GCT bytes;
- header and blank lines never reach the container;
- the body of a list of descriptions is the concatenation of their sections, up
  to the first failure.

What the code does where it reads otherwise at first sight:

- **Branch prefix.** `generateBranchCodeLine` sets prefix `4B` when
  `addressDiff < 0` (gecko.go:176-179). `addressDiff` is a `uint64`, so the test
  is never true and the prefix is always `48`
  (`Encoder.BackwardBranchKeepsForwardPrefix`).
- **Branch arithmetic.** The addresses are parsed as 32-bit values
  (gecko.go:169-170) and subtracted and incremented as `uint64` (gecko.go:175,
  182). Only the low 24 bits of the result reach the line (gecko.go:188-189),
  which `Encoder.Low24OfUint64` and `Encoder.BranchLineFormat` state.
- **Text output of one description.** `strings.Join` of the name line, the
  description line, the annotated code line and the blank separator line gives
  text that ends in a single newline after the code line (`Sequencer.ExampleText`).

## Model

| member | source | states |
|---|---|---|
| Hex.DecodeEncode | gecko.go:311-312 | Round trip: the hex text of `b` decodes back to `b`. |
| Hex.DecodeUpperEncode | gecko.go:311-312 | Round trip through the upper-cased text the packers write. |
| Hex.DecodeUpper | gecko.go:461 | Hex decoding does not depend on the case of the digits. |
| Hex.DecodeConcat | gecko.go:461 | Decoding two even-length hex strings one after the other gives their bytes in order. |
| Hex.DecodePairsConcat | gecko.go:461 | The pairwise decoder distributes over concatenation. |
| Hex.DecodeString | gecko.go:461 | `hex.DecodeString` succeeds exactly on even-length all-hex strings, giving half as many bytes as characters. |
| Hex.ParseUint32 | gecko.go:169-170 | `strconv.ParseUint(s, 16, 32)` succeeds only with a value below 2^32. |
| Hex.FormatHexLength | gecko.go:188 | `%0<w>X` of a value below 16^w has exactly w digits. |
| Hex.FormatHexValue | gecko.go:188 | The digits of `%0<w>X` are hex and read back as the value formatted. |
| Hex.FormatHexUpper | gecko.go:188 | `%X` writes upper-case digits only. |
| Hex.FormatHexSuffix | gecko.go:188-189 | The last k digits of `%0<w>X` of x are `x mod 16^k` in k digits. |
| Hex.DecodeFormatHex | gecko.go:308 | The 2k digits of x decode to the k big-endian bytes of `x mod 256^k`. |
| Hex.HexValueBound | gecko.go:169-170 | A k-digit hex string denotes a value below 16^k. |
| Model.ExtIsSuffix | gecko.go:212 | `filepath.Ext` of a name is a suffix of the name. |
| Model.ExtShape | gecko.go:212 | The extension is empty exactly when the name has no dot; otherwise it starts at the final dot and holds no other. |
| Model.ExtOfSuffix | gecko.go:212 | A name ending in a dot followed by no other dot has that suffix as its extension. |
| Model.AsmExtension | gecko.go:212-215 | A name has extension `.asm` exactly when it ends in `.asm`. |
| Model.AddressIsParsable | gecko.go:169-170 | An 8-digit hex address parses, from its third digit on, as a 32-bit value. |
| Encoder.AddLineAnnotation | gecko.go:194-200 | An empty annotation leaves the line unchanged; otherwise the line is followed by ` #` and the annotation. |
| Encoder.ReplaceLineFormat | gecko.go:161-164 | For an 8-digit address, a replace line is `04` and the six low address digits, a space, then the upper-cased value. |
| Encoder.ReplaceLineDecodes | gecko.go:161-164 | The GCT reads a replace line as byte `04`, the low three address bytes and the four value bytes. |
| Encoder.BranchOffset | gecko.go:175-189 | The 24-bit offset by its meaning: target minus address, plus one for a link, mod 2^24. |
| Encoder.Low24OfUint64 | gecko.go:175-183 | The `uint64` subtraction and increment agree with exact arithmetic in the low 24 bits. |
| Encoder.BranchLineText | gecko.go:175-191 | The last six digits of `%06X` of the `uint64` difference are the six digits of its low 24 bits. |
| Encoder.BranchLineFormat | gecko.go:166-192 | A branch line is `04`, the low address digits, a space, `48`, and the offset in six digits. |
| Encoder.BranchAndLinkAddsOne | gecko.go:181-183 | Branch-and-link encodes the plain branch's offset plus one, mod 2^24. |
| Encoder.BranchToSelf | gecko.go:175-191 | A branch to its own address is `48000000`, or `48000001` with the link bit. |
| Encoder.BackwardBranchKeepsForwardPrefix | gecko.go:175-179 | As written, a target below the address still gets prefix `48`, with 2^24 minus the distance in the low 24 bits. |
| Encoder.BranchWordDecodes | gecko.go:191 | The instruction field `48` and six digits decodes to byte `48` and the offset's three bytes. |
| Encoder.BranchLineDecodes | gecko.go:166-192 | The GCT reads a branch line as `04`, the low address bytes, `48` and the offset's three bytes. |
| Encoder.AnnotateFirst | gecko.go:133-144 | Only the first line of a multi-line entry is annotated; the rest are unchanged. |
| Encoder.AnnotationKeepsGct | gecko.go:194-200 | An annotation never changes what the GCT reads from a line. |
| Encoder.AnnotateFirstKeepsGct | gecko.go:133-144 | Annotating an entry's first line leaves the entry's GCT bytes unchanged. |
| Packer.InjectionPadded | gecko.go:301-306 | A code filling whole records gets a `nop` word and a zero word; any other gets a zero word. The result keeps the code as prefix, ends in a zero word and fills whole records. |
| Packer.BlockPadded | gecko.go:325-328 | A `nop` word is appended only when the code does not fill whole records; the result fills whole records. |
| Packer.RecordLine | gecko.go:310-314 | A record line is 17 characters with a space at position 8. |
| Packer.RecordLineUpper | gecko.go:311-312 | Every other character of a record line is an upper-case hex digit. |
| Packer.Records | gecko.go:310-314 | There is exactly one record line per 8-byte record. |
| Packer.RecordsIndex | gecko.go:310-314 | The i-th record line is the line of bytes [8i, 8i+8). |
| Packer.InjectionCodeLines | gecko.go:281-317 | No code is an error naming the file. One word is the `04` replace line of its hex text. Otherwise there is a `C2` header counting records, then one line per record. |
| Packer.BlockLines | gecko.go:319-339 | A `06` header counting padded bytes, then one line per record. |
| Packer.EmitRecords | gecko.go:310-314 | The record loop yields the header and then exactly the record lines of the padded code. |
| Packer.GenerateInjectionCodeLines | gecko.go:281-317 | The imperative packer, with padding by `append` and the `i += 8` loop, equals `InjectionCodeLines`. |
| Packer.GenerateBlockLines | gecko.go:319-366 | Both block packers equal `BlockLines`. |
| Packer.RecordLineDecodes | gecko.go:310-314 | A record line reads back as its eight bytes. |
| Packer.RecordsPayload | gecko.go:310-314 | Round trip: the GCT reads the first n record lines back as the first 8n bytes of the padded code. |
| Packer.HeaderLineDecodes | gecko.go:308 | A header line reads back as the type byte, the low three address bytes and the 4-byte big-endian count. |
| Packer.HeaderAndRecordsPayload | gecko.go:308-314 | A header followed by records reads back as the header's bytes and then the padded code. |
| Packer.InjectionGct | gecko.go:281-317 | The GCT form of an injection is `C2`, the low address bytes, the record count, then the padded code. |
| Packer.SingleWordInjectionGct | gecko.go:292-299 | A one-word injection reads back as the `04` write of that word. |
| Packer.BlockGct | gecko.go:319-339 | The GCT form of a block is `06`, the low address bytes, the byte count, then the padded code. |
| Packer.EmptyBlock | gecko.go:325-330 | An empty block is not an error; it is the header alone, with count `00000000`. |
| Packer.InjectionEndsWithZeroWord | gecko.go:301-314 | The last line of an injection of more than one word ends in `00000000`. |
| Folder.AsmAddress | gecko.go:246-256 | The address is the last 8 characters of the first line. It is an error naming the file when the line is shorter or those characters are not hex. |
| Folder.AsmFileLines | gecko.go:210-261 | Only names with extension `.asm` contribute, each at least one line. |
| Folder.EntriesLines | gecko.go:210-278 | Without the recursive flag, only the files pass. The files' lines always come first. |
| Folder.FolderLines | gecko.go:202-208 | An unreadable folder is an error naming it. |
| Folder.InjectAsmFile | gecko.go:210-261 | The body of the first loop equals `AsmFileLines`. |
| Folder.InjectionFolderFiles | gecko.go:210-262 | The file loop equals `FilesLines`. |
| Folder.InjectionSubfolders | gecko.go:264-276 | The subfolder loop equals `SubfolderLines`. |
| Folder.InjectionFolderEntries | gecko.go:210-278 | Both loops together equal `EntriesLines`. |
| Folder.GenerateInjectionFolderLines | gecko.go:202-279 | The whole function equals `FolderLines`. |
| Folder.FilesFailurePersists | gecko.go:220-256 | A failing file fails the whole first pass with its error. |
| Folder.SubfoldersFailurePersists | gecko.go:264-276 | A failing subfolder fails the whole second pass with its error. |
| Folder.AsmFileInjection | gecko.go:247-261 | A good `.asm` file is the injection at its first line's address, annotated with its path. |
| Folder.UnopenableFile | gecko.go:220-223 | An `.asm` file that cannot be opened stops the build. |
| Folder.NonHexAddress | gecko.go:253-256 | A first line not ending in 8 hex digits stops the build. |
| Folder.ShortFirstLine | gecko.go:247-250 | A first line shorter than 8 characters stops the build. |
| Folder.AsmFileAnnotatedWithPath | gecko.go:259-260 | The first line of each file's injection ends in ` #` and the file's path. |
| Folder.NoAsmNoLines | gecko.go:210-215 | A listing without `.asm` names contributes nothing. |
| Folder.FilesBeforeSubfolders | gecko.go:210-276 | The recursive result is all of the folder's files, then all of its subfolders. This unfolds the definition. |
| Sequencer.DescriptionLines | gecko.go:117-119 | One `*` line per description line, in order. |
| Sequencer.HeaderLines | gecko.go:111-122 | One name line plus one line per description line. |
| Sequencer.HeaderLinesShape | gecko.go:114-119 | The name line is `$`, the name, ` [`, the authors joined by `, `, and `]`; then `*` and each description line. This unfolds the definition. |
| Sequencer.GenerateHeaderLines | gecko.go:111-122 | The header loop equals `HeaderLines`. |
| Sequencer.BareEntryLines | gecko.go:128-155 | Every recognised type other than `injectFolder` yields at least one line; an unknown type yields none. |
| Sequencer.GenerateEntryLines | gecko.go:128-155 | One case of the switch equals `EntryLines`. |
| Sequencer.GenerateCodeLines | gecko.go:124-159 | The entry loop equals `CodeLines`: the entries' lines in declared order, up to the first failure. |
| Sequencer.Section | gecko.go:101-107 | A description appends its header, then its code lines, then a blank line. A failing one leaves only its header and reports the code lines' error. |
| Sequencer.Gecko.BuildBody | gecko.go:98-109 | `output` grows by exactly `Body(config.codes)`; the failure is the first description's failure. |
| Sequencer.CodeFailurePersists | gecko.go:127-156 | Once an entry fails, the description's code lines fail with that error. |
| Sequencer.BodyFailurePersists | gecko.go:100-108 | Once a description fails, nothing after it is appended. |
| Sequencer.BodyStep | gecko.go:100-108 | One iteration of `buildBody`'s loop extends the body by one section. |
| Sequencer.BodySnoc | gecko.go:100-108 | The body of a list grown by one description. This unfolds the definition. |
| Sequencer.BodyAppend | gecko.go:100-108 | The body of `a + b` is the body of `a` followed by the body of `b`, unless `a` failed. |
| Sequencer.BodyOfOne | gecko.go:100-108 | One description gives its header, its code lines and one blank line. This unfolds the definition. |
| Sequencer.HeaderLinesNotInGct | gecko.go:111-122 | Header lines never reach the GCT container. |
| Sequencer.UnknownTypeNoLines | gecko.go:128-155 | An entry of an unrecognised type adds no lines. |
| Sequencer.OnlyFirstLineAnnotated | gecko.go:129-151 | The first line of an entry carries the annotation and the others are as generated. |
| Sequencer.FolderIgnoresAnnotation | gecko.go:152-154 | A folder injection ignores the configured annotation. |
| Sequencer.AnnotationNotInGct | gecko.go:129-151 | An entry's annotation never changes its GCT bytes. |
| Sequencer.ReplaceExample | gecko.go:98-164 | The worked example: name line, description line, `04001234 60000000 #nop`, blank line. |
| Sequencer.ExampleText | gecko.go:447-450 | The example's text output ends with a single newline after the code line. |
| Sequencer.ExampleGct | gecko.go:452-470 | The example's container holds exactly the 8 bytes of its one code line. |
| Serializer.DecodeLine | gecko.go:455-465 | A line is kept exactly when it has at least 17 characters and both fields are hex; it gives 8 bytes. |
| Serializer.GctOutput | gecko.go:452-470 | The byte loop yields the magic header, the kept lines' bytes in order, and the footer. |
| Serializer.GctPayloadConcat | gecko.go:455-468 | The container payload of `a + b` is the payload of `a` followed by that of `b`. |
| Serializer.GctPayloadLength | gecko.go:455-468 | The payload holds 8 bytes per kept line. |
| Serializer.GctLayout | gecko.go:452-470 | The container has 16 + 8k bytes, starting `00D0C0DE00D0C0DE` and ending `F000000000000000`. |
| Serializer.NonCodeLineSkipped | gecko.go:455-465 | Blank, `$` and `*` lines are skipped. |
| Serializer.NoCodeLinesNoPayload | gecko.go:455-465 | Lines none of which is kept add nothing. |
| Serializer.DecodeFields | gecko.go:461 | A line of two 8-character fields around a space is read as the two fields. |
| Serializer.DecodeLinePrefix | gecko.go:456-461 | Only the first 17 characters of a line matter, so an annotated code line is kept. |
| Serializer.SplitTextOutput | gecko.go:447-450 | Round trip: splitting the text output at newlines gives the lines back, when no line holds a newline. |

## Left out

- `compile` (gecko.go:368-432) is left out: the external assembler, `objcopy`, the temporary files, the OS dispatch and the ELF slicing. `Sources.compiled` maps a path to the bytes `compile` returns; a path missing from it is a failed assembly.
- `readConfigFile` and `main` (gecko.go:54-96) are left out: the command-line checks, the JSON read and the panic recovery. `Config` is an input value. `writeOutput` and the `ioutil.WriteFile` calls (gecko.go:434-450, 471) are left out because they are file I/O; the model keeps the computed lines and bytes. After a panic `main` writes nothing, so the lines `BuildBody` appended before a failure are never written.
- The file system is an input: `ioutil.ReadDir`, `os.Open` and `bufio.Scanner` become an `Entry` tree, and `ioutil.ReadFile` becomes `Sources.binaries`. The listing order is whatever the tree holds; `ioutil.ReadDir` sorts by name. The top folder's listing is `src.directories[folder]`; deeper listings come from the `Directory` entries of that tree. The source calls `ioutil.ReadDir` again at each level (gecko.go:271-273), so a subfolder that fails to be read at that point is not modelled.
- `log.Panic` and `os.Exit` are `Result` errors, not process termination. Their message text is not modelled.
- Encoder.BranchCodeLine: requires both address fields to parse. The source checks only the second parse error, because `err` is overwritten at gecko.go:169-170; an unparsable first address is not modelled.
- Model.WordAligned: assembled and binary byte lengths are required to be multiples of 4, as PowerPC code is. With other lengths, the record loop's slicing at gecko.go:311-312 and 333-334 reads past the slice's length.
- Encoder.ReplaceCodeLine, Packer.InjectionCodeLines, Packer.BlockLines: require an address of at least 2 characters (`address[2:]`). The GCT lemmas about them require 8 hex digits.
- Packer.InjectionGct, Packer.BlockGct: the count is required to be below 2^32, because only then is `%08X` exactly 8 digits.
- Hex.ToUpper: maps only ASCII letters; `strings.ToUpper`'s Unicode case mapping is left out.
- A Dafny character stands for one byte of a Go string, so length tests and slices such as `len(line) < 17` (gecko.go:456) and `firstLine[lineLength-8:]` (gecko.go:251) count characters; multi-byte UTF-8 text is not modelled.
- Model.PathJoin: is `folder + "/" + name`; `filepath.Join`'s path cleaning is left out.
- Model.Entry: a file's first line is what the scanner returns (an empty file gives `""`); `Folder.FirstLine` reads it, and a missing file stands for a failed `os.Open` (gecko.go:220-229). `compile`, `ioutil.ReadFile` and `ioutil.ReadDir` are lookups in `Sources` (`Model.Compile`, `Model.ReadBinary`, `Model.ReadDir`), not models of those functions. Scanner buffer limits and read errors after opening are left out. A directory named like an `.asm` file is treated as a file that yields `""` as its first line, whose address check then fails.
