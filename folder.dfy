/**
 * Folder injection (`generateInjectionFolderLines`): every `.asm` file of a folder
 * becomes a `C2` injection at the address written at the end of its first line,
 * annotated with the file's path; with the recursive flag, the subfolders follow,
 * after all the files of the folder.
 */
module Folder {
  import opened Results
  import opened Hex
  import opened Model
  import opened Encoder
  import opened Packer

  /** What `scanner.Text()` gives after the first `Scan` of an entry opened with `os.Open`. */
  function FirstLine(e: Entry, path: string): (r: Result<string, Error>)
    ensures r.Err? <==> e.File? && e.firstLine.None?
    ensures r.Err? ==> r.error == FileOpenFailed(path)
    ensures e.File? && e.firstLine.Some? ==> r == Ok(e.firstLine.value)
  {
    match e
    case File(_, None) => Err(FileOpenFailed(path))
    case File(_, Some(line)) => Ok(line)
    case _ => Ok("")
  }

  /** The injection address of a file: the last 8 characters of its first line, which must be hex. */
  function AsmAddress(path: string, firstLine: string): (r: Result<string, Error>)
    ensures r.Ok? <==> |firstLine| >= 8 && AllHex(firstLine[|firstLine| - 8..])
    ensures r.Ok? ==> r.value == firstLine[|firstLine| - 8..] && IsAddress(r.value)
    ensures r.Err? ==> r.error == MissingAddress(path)
  {
    if |firstLine| < 8 then Err(MissingAddress(path))
    else
      var address := firstLine[|firstLine| - 8..];
      if DecodeString(address).None? then Err(MissingAddress(path)) else Ok(address)
  }

  /** The lines one entry of a folder contributes in the first pass: nothing unless its name ends in `.asm`. */
  function AsmFileLines(folder: string, e: Entry, src: Sources): (r: Result<seq<string>, Error>)
    requires WordAligned(src)
    ensures Ext(e.name) != ".asm" ==> r == Ok([])
    ensures r.Ok? && Ext(e.name) == ".asm" ==> |r.value| >= 1
  {
    if Ext(e.name) != ".asm" then Ok([])
    else
      var path := PathJoin(folder, e.name);
      var firstLine :- FirstLine(e, path);
      var address :- AsmAddress(path, firstLine);
      var bytes :- Compile(src, path);
      var lines :- InjectionCodeLines(address, path, bytes);
      Ok(AnnotateFirst(lines, path))
  }

  /** The first pass over a listing: the `.asm` files in listing order, stopping at the first failure. */
  function FilesLines(folder: string, es: seq<Entry>, src: Sources): Result<seq<string>, Error>
    requires WordAligned(src)
  {
    if |es| == 0 then Ok([])
    else
      var init :- FilesLines(folder, es[..|es| - 1], src);
      var last :- AsmFileLines(folder, es[|es| - 1], src);
      Ok(init + last)
  }

  /** The second pass: every subfolder in listing order, each traversed recursively. */
  function SubfolderLines(folder: string, es: seq<Entry>, src: Sources): Result<seq<string>, Error>
    requires WordAligned(src)
    decreases es, 0
  {
    if |es| == 0 then Ok([])
    else
      var init :- SubfolderLines(folder, es[..|es| - 1], src);
      var last :- match es[|es| - 1]
        case File(_, _) => Ok([])
        case Directory(name, entries) => EntriesLines(PathJoin(folder, name), entries, true, src)
        case UnreadableDirectory(name) => Err(DirectoryReadFailed(PathJoin(folder, name)));
      Ok(init + last)
  }

  /** The lines of a folder with the listing `es`: its files first, then (recursively) its subfolders. */
  function EntriesLines(folder: string, es: seq<Entry>, isRecursive: bool, src: Sources)
    : (r: Result<seq<string>, Error>)
    requires WordAligned(src)
    ensures !isRecursive ==> r == FilesLines(folder, es, src)
    ensures r.Ok? ==> FilesLines(folder, es, src).Ok?
                      && |FilesLines(folder, es, src).value| <= |r.value|
                      && r.value[..|FilesLines(folder, es, src).value|] == FilesLines(folder, es, src).value
    decreases es, 1
  {
    var files :- FilesLines(folder, es, src);
    if !isRecursive then Ok(files)
    else
      var subfolders :- SubfolderLines(folder, es, src);
      Ok(files + subfolders)
  }

  /** `generateInjectionFolderLines(folder, isRecursive)`. */
  function FolderLines(folder: string, isRecursive: bool, src: Sources): (r: Result<seq<string>, Error>)
    requires WordAligned(src)
    ensures folder !in src.directories ==> r == Err(DirectoryReadFailed(folder))
  {
    var contents := ReadDir(src, folder);
    if contents.Err? then Err(contents.error) else EntriesLines(folder, contents.value, isRecursive, src)
  }

  // ---------------------------------------------------------------------------
  // The loops

  /** The body of the first loop for one entry of the folder. */
  method InjectAsmFile(folder: string, file: Entry, src: Sources) returns (r: Result<seq<string>, Error>)
    requires WordAligned(src)
    ensures r == AsmFileLines(folder, file, src)
  {
    var fileName := file.name;
    if Ext(fileName) != ".asm" {
      return Ok([]);
    }
    var filePath := PathJoin(folder, fileName);
    var firstLine: string;
    match file {
      case File(_, None) =>
        return Err(FileOpenFailed(filePath));
      case File(_, Some(line)) =>
        firstLine := line;
      case _ =>
        firstLine := "";
    }
    var lineLength := |firstLine|;
    if lineLength < 8 {
      return Err(MissingAddress(filePath));
    }
    var address := firstLine[lineLength - 8..];
    if DecodeString(address).None? {
      return Err(MissingAddress(filePath));
    }
    var instructions := Compile(src, filePath);
    if instructions.Err? {
      return Err(instructions.error);
    }
    var fileLines := GenerateInjectionCodeLines(address, filePath, instructions.value);
    if fileLines.Err? {
      return Err(fileLines.error);
    }
    return Ok(AnnotateFirst(fileLines.value, filePath));
  }

  /** The first loop of `generateInjectionFolderLines`: the `.asm` files of the listing. */
  method InjectionFolderFiles(folder: string, contents: seq<Entry>, src: Sources)
    returns (r: Result<seq<string>, Error>)
    requires WordAligned(src)
    ensures r == FilesLines(folder, contents, src)
  {
    var lines: seq<string> := [];
    for i := 0 to |contents|
      invariant FilesLines(folder, contents[..i], src) == Ok(lines)
    {
      assert contents[..i + 1][..i] == contents[..i];
      var fileLines := InjectAsmFile(folder, contents[i], src);
      if fileLines.Err? {
        FilesFailurePersists(folder, contents, i + 1, src);
        return Err(fileLines.error);
      }
      lines := lines + fileLines.value;
    }
    assert contents[..|contents|] == contents;
    return Ok(lines);
  }

  /** The second loop of `generateInjectionFolderLines`: each subfolder, recursively. */
  method InjectionSubfolders(folder: string, contents: seq<Entry>, src: Sources)
    returns (r: Result<seq<string>, Error>)
    requires WordAligned(src)
    ensures r == SubfolderLines(folder, contents, src)
    decreases contents, 0
  {
    var lines: seq<string> := [];
    for i := 0 to |contents|
      invariant SubfolderLines(folder, contents[..i], src) == Ok(lines)
    {
      assert contents[..i + 1][..i] == contents[..i];
      match contents[i] {
        case File(_, _) =>
          assert lines + [] == lines;
        case Directory(name, entries) =>
          var folderLines := InjectionFolderEntries(PathJoin(folder, name), entries, true, src);
          if folderLines.Err? {
            SubfoldersFailurePersists(folder, contents, i + 1, src);
            return Err(folderLines.error);
          }
          lines := lines + folderLines.value;
        case UnreadableDirectory(name) =>
          SubfoldersFailurePersists(folder, contents, i + 1, src);
          return Err(DirectoryReadFailed(PathJoin(folder, name)));
      }
    }
    assert contents[..|contents|] == contents;
    return Ok(lines);
  }

  /** `generateInjectionFolderLines` over an already read listing. */
  method InjectionFolderEntries(folder: string, contents: seq<Entry>, isRecursive: bool, src: Sources)
    returns (r: Result<seq<string>, Error>)
    requires WordAligned(src)
    ensures r == EntriesLines(folder, contents, isRecursive, src)
    decreases contents, 1
  {
    var lines := InjectionFolderFiles(folder, contents, src);
    if lines.Err? || !isRecursive {
      return lines;
    }
    var folderLines := InjectionSubfolders(folder, contents, src);
    if folderLines.Err? {
      return Err(folderLines.error);
    }
    return Ok(lines.value + folderLines.value);
  }

  /** `generateInjectionFolderLines`. */
  method GenerateInjectionFolderLines(folder: string, isRecursive: bool, src: Sources)
    returns (r: Result<seq<string>, Error>)
    requires WordAligned(src)
    ensures r == FolderLines(folder, isRecursive, src)
  {
    var contents := ReadDir(src, folder);
    if contents.Err? {
      return Err(contents.error);
    }
    r := InjectionFolderEntries(folder, contents.value, isRecursive, src);
  }

  // ---------------------------------------------------------------------------
  // Lemmas

  /** Once a file of the listing fails, the whole first pass fails with that file's error. */
  lemma {:induction false} FilesFailurePersists(folder: string, es: seq<Entry>, k: nat, src: Sources)
    requires WordAligned(src) && k <= |es| && FilesLines(folder, es[..k], src).Err?
    ensures FilesLines(folder, es, src) == FilesLines(folder, es[..k], src)
    decreases |es|
  {
    if k < |es| {
      var init := es[..|es| - 1];
      assert init[..k] == es[..k];
      FilesFailurePersists(folder, init, k, src);
    } else {
      assert es[..k] == es;
    }
  }

  /** Once a subfolder fails, the whole second pass fails with its error. */
  lemma {:induction false} SubfoldersFailurePersists(folder: string, es: seq<Entry>, k: nat, src: Sources)
    requires WordAligned(src) && k <= |es| && SubfolderLines(folder, es[..k], src).Err?
    ensures SubfolderLines(folder, es, src) == SubfolderLines(folder, es[..k], src)
    decreases |es|
  {
    if k < |es| {
      var init := es[..|es| - 1];
      assert init[..k] == es[..k];
      SubfoldersFailurePersists(folder, init, k, src);
    } else {
      assert es[..k] == es;
    }
  }

  /**
   * A readable `.asm` file whose first line ends in an 8-digit address and whose code is
   * not empty becomes the injection at that address, annotated with the file's path.
   */
  lemma AsmFileInjection(folder: string, name: string, line: string, src: Sources)
    requires WordAligned(src) && Ext(name) == ".asm"
    requires |line| >= 8 && AllHex(line[|line| - 8..])
    requires PathJoin(folder, name) in src.compiled && |src.compiled[PathJoin(folder, name)]| > 0
    ensures var path := PathJoin(folder, name);
      var lines := InjectionCodeLines(line[|line| - 8..], path, src.compiled[path]).value;
      AsmFileLines(folder, File(name, Some(line)), src) == Ok(AnnotateFirst(lines, path))
  {
  }

  /** An `.asm` entry that cannot be opened stops the build. */
  lemma UnopenableFile(folder: string, name: string, src: Sources)
    requires WordAligned(src) && Ext(name) == ".asm"
    ensures AsmFileLines(folder, File(name, None), src) == Err(FileOpenFailed(PathJoin(folder, name)))
  {
  }

  /** An `.asm` file whose first line does not end in 8 hex digits stops the build. */
  lemma NonHexAddress(folder: string, name: string, line: string, src: Sources)
    requires WordAligned(src) && Ext(name) == ".asm" && |line| >= 8 && !AllHex(line[|line| - 8..])
    ensures AsmFileLines(folder, File(name, Some(line)), src) == Err(MissingAddress(PathJoin(folder, name)))
  {
  }

  /** Whatever an `.asm` entry yields starts with a line annotated with the file's own path. */
  lemma AsmFileAnnotatedWithPath(folder: string, e: Entry, src: Sources)
    requires WordAligned(src) && Ext(e.name) == ".asm" && AsmFileLines(folder, e, src).Ok?
    ensures var path, lines := PathJoin(folder, e.name), AsmFileLines(folder, e, src).value;
      |lines| >= 1 && |lines[0]| >= |path| + 2 && lines[0][|lines[0]| - |path| - 2..] == " #" + path
  {
    var path := PathJoin(folder, e.name);
    var firstLine := FirstLine(e, path).value;
    var address := AsmAddress(path, firstLine).value;
    var bytes := Compile(src, path).value;
    var code := InjectionCodeLines(address, path, bytes).value;
    assert AsmFileLines(folder, e, src) == Ok(AnnotateFirst(code, path));
    assert path != "";
  }

  /** A file whose first line is shorter than an address stops the build. */
  lemma ShortFirstLine(folder: string, name: string, line: string, src: Sources)
    requires WordAligned(src) && Ext(name) == ".asm" && |line| < 8
    ensures AsmFileLines(folder, File(name, Some(line)), src) == Err(MissingAddress(PathJoin(folder, name)))
  {
  }

  /** A listing with no `.asm` names contributes no lines in the first pass. */
  lemma {:induction false} NoAsmNoLines(folder: string, es: seq<Entry>, src: Sources)
    requires WordAligned(src)
    requires forall i :: 0 <= i < |es| ==> Ext(es[i].name) != ".asm"
    ensures FilesLines(folder, es, src) == Ok([])
    decreases |es|
  {
    if |es| > 0 {
      var init := es[..|es| - 1];
      assert forall i :: 0 <= i < |init| ==> init[i] == es[i];
      NoAsmNoLines(folder, init, src);
      assert AsmFileLines(folder, es[|es| - 1], src) == Ok([]);
      var none: seq<string> := [];
      assert none + none == none;
    }
  }

  /** The files of a folder come before everything found in its subfolders. */
  lemma FilesBeforeSubfolders(folder: string, es: seq<Entry>, src: Sources)
    requires WordAligned(src) && EntriesLines(folder, es, true, src).Ok?
    ensures SubfolderLines(folder, es, src).Ok?
    ensures EntriesLines(folder, es, true, src).value
         == FilesLines(folder, es, src).value + SubfolderLines(folder, es, src).value
  {
  }
}
