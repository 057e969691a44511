/**
 * The configuration the generator reads from codes.json, and the outside world it
 * consults while building: the assembler, binary files and source folders.
 */
module Model {
  import opened Results
  import opened Hex

  // The recognised values of a code's `Type` field.
  const Replace := "replace"
  const Inject := "inject"
  const ReplaceCodeBlock := "replaceCodeBlock"
  const Branch := "branch"
  const BranchAndLink := "branchAndLink"
  const InjectFolder := "injectFolder"
  const ReplaceBinary := "replaceBinary"

  /** One entry of a description's `Build` list; which fields matter depends on `codeType`. */
  datatype GeckoCode = GeckoCode(
    codeType: string,
    address: string,
    targetAddress: string,
    annotation: string,
    isRecursive: bool,
    sourceFile: string,
    sourceFolder: string,
    value: string)

  /** A named code: its header text and the entries that build it. */
  datatype CodeDescription = CodeDescription(
    name: string,
    authors: seq<string>,
    description: seq<string>,
    build: seq<GeckoCode>)

  datatype Config = Config(outputFiles: seq<string>, codes: seq<CodeDescription>)

  /** Why a build stops. Each stands for a `log.Panic` or `os.Exit` of the generator. */
  datatype Error =
    | CompileFailed(file: string)        // the assembler or objcopy failed, or a.out was unreadable
    | NoCode(file: string)               // an injection whose file assembled to nothing
    | BinaryReadFailed(file: string)     // a replaceBinary file could not be read
    | DirectoryReadFailed(folder: string)
    | FileOpenFailed(path: string)       // an .asm file of a folder could not be opened
    | MissingAddress(path: string)       // its first line does not end in 8 hex digits

  /**
   * A directory entry as `ioutil.ReadDir` reports it. A file carries the first line a
   * `bufio.Scanner` reads from it, or None when `os.Open` fails; a directory carries
   * the listing `ioutil.ReadDir` gives for it, and an unreadable directory is one whose
   * listing fails.
   */
  datatype Entry =
    | File(name: string, firstLine: Option<string>)
    | Directory(name: string, entries: seq<Entry>)
    | UnreadableDirectory(name: string)

  /**
   * What the file system and the assembler give the generator:
   * `compiled[p]` is the machine code `compile(p)` returns (a missing path is a failed
   * assembly), `binaries[p]` the contents of a binary file, and `directories[f]` the
   * listing of a source folder.
   */
  datatype Sources = Sources(
    compiled: map<string, seq<Byte>>,
    binaries: map<string, seq<Byte>>,
    directories: map<string, seq<Entry>>)

  /** PowerPC code is a whole number of 4-byte words; the record loops rely on it. */
  predicate WordAligned(src: Sources) {
    && (forall p :: p in src.compiled ==> |src.compiled[p]| % 4 == 0)
    && (forall p :: p in src.binaries ==> |src.binaries[p]| % 4 == 0)
  }

  function Compile(src: Sources, file: string): (r: Result<seq<Byte>, Error>)
    ensures r.Ok? <==> file in src.compiled
    ensures r.Ok? ==> r.value == src.compiled[file]
    ensures r.Err? ==> r.error == CompileFailed(file)
  {
    if file in src.compiled then Ok(src.compiled[file]) else Err(CompileFailed(file))
  }

  function ReadBinary(src: Sources, file: string): (r: Result<seq<Byte>, Error>)
    ensures r.Ok? <==> file in src.binaries
    ensures r.Ok? ==> r.value == src.binaries[file]
    ensures r.Err? ==> r.error == BinaryReadFailed(file)
  {
    if file in src.binaries then Ok(src.binaries[file]) else Err(BinaryReadFailed(file))
  }

  function ReadDir(src: Sources, folder: string): (r: Result<seq<Entry>, Error>)
    ensures r.Ok? <==> folder in src.directories
    ensures r.Ok? ==> r.value == src.directories[folder]
    ensures r.Err? ==> r.error == DirectoryReadFailed(folder)
  {
    if folder in src.directories then Ok(src.directories[folder]) else Err(DirectoryReadFailed(folder))
  }

  /** `strings.Join`. */
  function Join(parts: seq<string>, sep: string): string {
    if |parts| == 0 then ""
    else if |parts| == 1 then parts[0]
    else Join(parts[..|parts| - 1], sep) + sep + parts[|parts| - 1]
  }

  /** `filepath.Join(folder, name)` for a non-empty folder, without path cleaning. */
  function PathJoin(folder: string, name: string): string {
    if folder == "" then name else folder + "/" + name
  }

  /** `filepath.Ext`: the suffix from the final dot of the name, or "" when it has none. */
  function Ext(name: string): (e: string)
    ensures |e| <= |name|
  {
    if |name| == 0 then ""
    else if name[|name| - 1] == '.' then "."
    else
      var e := Ext(name[..|name| - 1]);
      if e == "" then "" else e + [name[|name| - 1]]
  }

  /** An address text the branch encoder accepts: `address[2:]` parses as a 32-bit hex number. */
  predicate ParsableAddress(address: string) {
    |address| >= 2 && ParseUint32(address[2..]).Some?
  }

  /** The conventional form of an address: 8 hex digits. */
  predicate IsAddress(address: string) {
    |address| == 8 && AllHex(address)
  }

  /**
   * What the generator assumes of an entry without checking it: the fields its
   * type uses can be sliced with `address[2:]`, and a branch's addresses parse.
   */
  predicate WellFormedCode(c: GeckoCode) {
    && ((c.codeType == Replace || c.codeType == Inject || c.codeType == ReplaceCodeBlock
         || c.codeType == ReplaceBinary) ==> |c.address| >= 2)
    && (c.codeType == Branch || c.codeType == BranchAndLink ==>
          ParsableAddress(c.address) && ParsableAddress(c.targetAddress))
  }

  predicate WellFormedDescription(d: CodeDescription) {
    forall i :: 0 <= i < |d.build| ==> WellFormedCode(d.build[i])
  }

  predicate WellFormedCodes(codes: seq<CodeDescription>) {
    forall i :: 0 <= i < |codes| ==> WellFormedDescription(codes[i])
  }

  predicate WellFormedConfig(config: Config) {
    WellFormedCodes(config.codes)
  }

  /** An 8-digit hex address qualifies for every entry type. */
  lemma AddressIsParsable(a: string)
    requires IsAddress(a)
    ensures ParsableAddress(a) && ParseUint32(a[2..]) == Some(HexValue(a[2..]))
  {
    assert AllHex(a[2..]);
    HexValueBound(a[2..]);
    assert Pow16(6) == 0x100_0000;
  }

  /** The extension of a name ending in `ext` is `ext`, when `ext` is a dot followed by no other dot. */
  lemma {:induction false} ExtOfSuffix(name: string, ext: string)
    requires 1 <= |ext| <= |name| && name[|name| - |ext|..] == ext
    requires ext[0] == '.' && forall i :: 1 <= i < |ext| ==> ext[i] != '.'
    ensures Ext(name) == ext
    decreases |ext|
  {
    var n, k := |name|, |ext|;
    if k > 1 {
      assert name[n - 1] == ext[k - 1];
      var init, e := name[..n - 1], ext[..k - 1];
      assert init[|init| - |e|..] == e;
      ExtOfSuffix(init, e);
    }
  }

  /** The extension of a name is the end of that name. */
  lemma {:induction false} ExtIsSuffix(name: string)
    ensures name[|name| - |Ext(name)|..] == Ext(name)
    decreases |name|
  {
    var n := |name|;
    if n > 0 && name[n - 1] != '.' {
      var init := name[..n - 1];
      ExtIsSuffix(init);
      var e := Ext(init);
      if e != "" {
        assert name[n - 1 - |e|..] == init[|init| - |e|..] + [name[n - 1]];
      }
    }
  }

  /**
   * The extension is empty exactly when the name holds no dot; otherwise it starts
   * with the name's final dot and holds no other.
   */
  lemma {:induction false} ExtShape(name: string)
    ensures Ext(name) == "" <==> forall i :: 0 <= i < |name| ==> name[i] != '.'
    ensures Ext(name) != "" ==> Ext(name)[0] == '.' && forall i :: 1 <= i < |Ext(name)| ==> Ext(name)[i] != '.'
    decreases |name|
  {
    var n := |name|;
    if n > 0 && name[n - 1] != '.' {
      var init := name[..n - 1];
      ExtShape(init);
      var e := Ext(init);
      if e == "" {
        forall i | 0 <= i < n ensures name[i] != '.' {
          if i < n - 1 {
            assert name[i] == init[i];
          }
        }
      } else {
        var j :| 0 <= j < |init| && init[j] == '.';
        assert name[j] == '.';
        var r := e + [name[n - 1]];
        assert Ext(name) == r;
        forall i | 1 <= i < |r| ensures r[i] != '.' {
          if i < |e| {
            assert r[i] == e[i];
          }
        }
      }
    }
  }

  /** A name has extension `ext`, a dot followed by no other dot, exactly when it ends in `ext`. */
  lemma ExtMatches(name: string, ext: string)
    requires 1 <= |ext| && ext[0] == '.' && forall i :: 1 <= i < |ext| ==> ext[i] != '.'
    ensures Ext(name) == ext <==> |ext| <= |name| && name[|name| - |ext|..] == ext
  {
    if Ext(name) == ext {
      ExtIsSuffix(name);
    }
    if |ext| <= |name| && name[|name| - |ext|..] == ext {
      ExtOfSuffix(name, ext);
    }
  }

  /** `.asm` is a dot followed by no other dot. */
  lemma AsmIsExtension()
    ensures |".asm"| == 4 && ".asm"[0] == '.' && forall i :: 1 <= i < |".asm"| ==> ".asm"[i] != '.'
  {
    assert ".asm" == ['.', 'a', 's', 'm'];
  }

  /** `filepath.Ext(name) == ".asm"` exactly when the name ends in ".asm". */
  lemma AsmExtension(name: string)
    ensures Ext(name) == ".asm" <==> (|name| >= 4 && name[|name| - 4..] == ".asm")
  {
    AsmIsExtension();
    ExtMatches(name, ".asm");
  }
}
