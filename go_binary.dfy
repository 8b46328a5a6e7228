/**
 * The Go binary parser: `convertError` and `Parse`, which turns the module
 * dependencies recorded in a Go executable into library records carrying the
 * executable's build ID.
 *
 * Decoding the module information (`buildinfo.Read`) is the parameter
 * `info`: the dependency list it yields, or the text of its error.
 */
module GoBinary {
  import opened Wrappers
  import opened Types
  import opened BuildId

  /** `strings.HasSuffix` */
  predicate HasSuffix(s: string, suffix: string)
  {
    |suffix| <= |s| && s[|s| - |suffix|..] == suffix
  }

  /** HasSuffix means "is something followed by `suffix`". */
  lemma HasSuffixIff(s: string, suffix: string)
    ensures HasSuffix(s, suffix) <==> exists prefix :: s == prefix + suffix
  {
    if HasSuffix(s, suffix) {
      var prefix := s[..|s| - |suffix|];
      assert s == prefix + suffix;
    }
    if exists prefix :: s == prefix + suffix {
      var prefix :| s == prefix + suffix;
      assert s[|s| - |suffix|..] == suffix;
    }
  }

  const UNRECOGNIZED_FORMAT: string := "unrecognized file format"
  const NOT_GO_EXECUTABLE: string := "not a Go executable"

  /** What `Parse` reports when the module information cannot be read. */
  datatype ParseError =
    | UnrecognizedExe  // ErrUnrecognizedExe
    | NonGoBinary      // ErrNonGoBinary
    | Other(text: string)

  /** No message ends with both recognised suffixes: they end in different letters. */
  lemma SuffixesExclusive(text: string)
    ensures !(HasSuffix(text, UNRECOGNIZED_FORMAT) && HasSuffix(text, NOT_GO_EXECUTABLE))
  {
    if HasSuffix(text, UNRECOGNIZED_FORMAT) {
      assert text[|text| - 1] == UNRECOGNIZED_FORMAT[|UNRECOGNIZED_FORMAT| - 1] == 't';
    }
  }

  /**
   * `convertError`: the two errors of the module-information decoder that
   * mean "not a Go executable" become the parser's own; any other error is
   * passed on with its text.
   */
  function ConvertError(text: string): (e: ParseError)
    ensures e == UnrecognizedExe <==> HasSuffix(text, UNRECOGNIZED_FORMAT)
    ensures e == NonGoBinary <==> HasSuffix(text, NOT_GO_EXECUTABLE)
    ensures e.Other? <==> e == Other(text)
    ensures e.Other? <==> !HasSuffix(text, UNRECOGNIZED_FORMAT) && !HasSuffix(text, NOT_GO_EXECUTABLE)
  {
    SuffixesExclusive(text);
    if HasSuffix(text, UNRECOGNIZED_FORMAT) then UnrecognizedExe
    else if HasSuffix(text, NOT_GO_EXECUTABLE) then NonGoBinary
    else Other(text)
  }

  /** The text `err.Error()` of an error of `getBuildID`. */
  function ErrorText(e: Error): string
  {
    match e
    case ProgramNotSupported => "Program not supported"
    case Io(EOF) => "EOF"
    case Io(UnexpectedEOF) => "unexpected EOF"
    case Io(NegativeOffset) => "bytes.Reader.Seek: negative position"
    case ElfFormat(message) => message
  }

  /** Go's `string(b)`: one character per byte. */
  function BytesToString(b: seq<Byte>): (s: string)
    ensures |s| == |b|
    ensures forall i :: 0 <= i < |b| ==> s[i] as int == b[i]
  {
    seq(|b|, i requires 0 <= i < |b| => b[i] as char)
  }

  /** A `debug.Module`: a module path, its version and the module replacing it, if any. */
  datatype Module = Module(path: string, version: string, replace: Option<Module>)

  /** The record of one dependency: named after its replacement when it has one. */
  function Record(dep: Module, buildId: string, warnings: seq<string>): (l: Library)
    ensures dep.replace.None? ==> l.name == dep.path && l.version == dep.version
    ensures dep.replace.Some? ==> l.name == dep.replace.value.path && l.version == dep.replace.value.version
    ensures l.buildId == buildId && l.warnings == warnings && l.locations == []
  {
    var mod := if dep.replace.Some? then dep.replace.value else dep;
    Library(mod.path, mod.version, buildId, warnings, [])
  }

  /** The records of `deps`, in order, skipping the ones without a path. */
  function Assemble(deps: seq<Module>, buildId: string, warnings: seq<string>): (libs: seq<Library>)
    ensures |libs| <= |deps|
    ensures forall i :: 0 <= i < |libs| ==> libs[i].buildId == buildId && libs[i].warnings == warnings
    ensures forall l :: l in libs ==> exists d :: d in deps && d.path != "" && l == Record(d, buildId, warnings)
    ensures (forall i :: 0 <= i < |deps| ==> deps[i].path == "") ==> libs == []
  {
    if deps == [] then []
    else
      var last := deps[|deps| - 1];
      Assemble(deps[..|deps| - 1], buildId, warnings) + (if last.path == "" then [] else [Record(last, buildId, warnings)])
  }

  /** How `Parse` ends: with libraries, with an error, or in a panic of `getBuildID`. */
  datatype ParseOutcome =
    | Parsed(libs: seq<Library>)
    | Failed(err: ParseError)
    | ParsePanicked

  /** `Parse`, given what `buildinfo.Read` yields on the file `file`. */
  function ParseOf(info: Result<seq<Module>, string>, file: seq<Byte>, newFile: seq<Byte> -> Result<ElfFile, string>)
    : (r: ParseOutcome)
    ensures info.Failure? ==> r == Failed(ConvertError(info.error))
    ensures info == Success([]) ==> r == Parsed([])
  {
    match info
    case Failure(text) => Failed(ConvertError(text))
    case Success(deps) =>
      if |deps| > 0 then
        match BuildIdOf(file, newFile)
        case Panicked => ParsePanicked
        case Done(id, err) =>
          var warnings := if err.Some? then [ErrorText(err.value)] else [];
          Parsed(Assemble(deps, BytesToString(id), warnings))
      else Parsed(Assemble(deps, "", []))
  }

  /**
   * `Parse`: read the module information, fetch the build ID only when there
   * are dependencies, and append one record per dependency with a path.
   */
  method Parse(info: Result<seq<Module>, string>, file: seq<Byte>, newFile: seq<Byte> -> Result<ElfFile, string>)
    returns (r: ParseOutcome)
    ensures r == ParseOf(info, file, newFile)
  {
    if info.Failure? {
      return Failed(ConvertError(info.error));
    }
    var deps := info.value;
    var warnings: seq<string> := [];
    var buildId: string := "";
    if |deps| > 0 {
      var o := GetBuildId(file, newFile);
      match o
      case Panicked =>
        return ParsePanicked;
      case Done(id, err) =>
        buildId := BytesToString(id);
        if err.Some? {
          warnings := [ErrorText(err.value)];
        }
    }
    var libs: seq<Library> := [];
    for i := 0 to |deps|
      invariant libs == Assemble(deps[..i], buildId, warnings)
    {
      var dep := deps[i];
      assert deps[..i + 1][..i] == deps[..i];
      if dep.path == "" {
        continue;
      }
      var mod := dep;
      if dep.replace.Some? {
        mod := dep.replace.value;
      }
      libs := libs + [Library(mod.path, mod.version, buildId, warnings, [])];
    }
    assert deps[..|deps|] == deps;
    return Parsed(libs);
  }

  /** The dependencies that have a path, in order. */
  function WithPath(deps: seq<Module>): (r: seq<Module>)
    ensures |r| <= |deps|
    ensures forall d :: d in r <==> d in deps && d.path != ""
  {
    if deps == [] then []
    else if deps[0].path == "" then WithPath(deps[1..])
    else [deps[0]] + WithPath(deps[1..])
  }

  /** Assembling is done dependency by dependency: the records of a concatenation are concatenated. */
  lemma {:induction false} AssembleAppend(d1: seq<Module>, d2: seq<Module>, buildId: string, warnings: seq<string>)
    ensures Assemble(d1 + d2, buildId, warnings) == Assemble(d1, buildId, warnings) + Assemble(d2, buildId, warnings)
    decreases |d2|
  {
    if d2 == [] {
      assert d1 + d2 == d1;
    } else {
      var init, last := d2[..|d2| - 1], d2[|d2| - 1];
      assert (d1 + d2)[..|d1 + d2| - 1] == d1 + init;
      assert (d1 + d2)[|d1 + d2| - 1] == last;
      AssembleAppend(d1, init, buildId, warnings);
    }
  }

  /** `Parse` emits exactly one record per dependency with a path, in dependency order. */
  lemma {:induction false} AssembleInOrder(deps: seq<Module>, buildId: string, warnings: seq<string>)
    ensures |Assemble(deps, buildId, warnings)| == |WithPath(deps)|
    ensures forall i :: 0 <= i < |WithPath(deps)| ==>
              Assemble(deps, buildId, warnings)[i] == Record(WithPath(deps)[i], buildId, warnings)
    decreases |deps|
  {
    if deps != [] {
      var first, rest := deps[0], deps[1..];
      assert deps == [first] + rest;
      AssembleAppend([first], rest, buildId, warnings);
      AssembleInOrder(rest, buildId, warnings);
      AssembleOne(first, buildId, warnings);
      var all, tail := Assemble(deps, buildId, warnings), Assemble(rest, buildId, warnings);
      if first.path == "" {
        assert all == [] + tail == tail;
        assert WithPath(deps) == WithPath(rest);
      } else {
        var r := Record(first, buildId, warnings);
        assert all == [r] + tail;
        assert WithPath(deps) == [first] + WithPath(rest);
        forall i | 0 <= i < |WithPath(deps)|
          ensures all[i] == Record(WithPath(deps)[i], buildId, warnings)
        {
          if i > 0 {
            assert all[i] == tail[i - 1];
            assert WithPath(deps)[i] == WithPath(rest)[i - 1];
          }
        }
      }
    }
  }

  lemma AssembleOne(d: Module, buildId: string, warnings: seq<string>)
    ensures Assemble([d], buildId, warnings) == if d.path == "" then [] else [Record(d, buildId, warnings)]
  {
    assert [d][..0] == [];
  }

  /** Every record of one `Parse` carries the same build ID and the same warnings. */
  lemma ParseSharesBuildId(info: Result<seq<Module>, string>, file: seq<Byte>,
                           newFile: seq<Byte> -> Result<ElfFile, string>)
    requires ParseOf(info, file, newFile).Parsed?
    ensures forall i, j :: 0 <= i < j < |ParseOf(info, file, newFile).libs| ==>
              ParseOf(info, file, newFile).libs[i].buildId == ParseOf(info, file, newFile).libs[j].buildId
              && ParseOf(info, file, newFile).libs[i].warnings == ParseOf(info, file, newFile).libs[j].warnings
  {
  }

  /**
   * When there are dependencies but the build ID cannot be had, every record
   * gets the empty build ID and the error text as its only warning.
   */
  lemma ParseWarnsOnBuildIdError(deps: seq<Module>, file: seq<Byte>, newFile: seq<Byte> -> Result<ElfFile, string>, e: Error)
    requires |deps| > 0
    requires BuildIdOf(file, newFile).Done? && BuildIdOf(file, newFile).err == Some(e)
    ensures ParseOf(Success(deps), file, newFile) == Parsed(Assemble(deps, "", [ErrorText(e)]))
    ensures forall l :: l in ParseOf(Success(deps), file, newFile).libs ==> l.buildId == "" && l.warnings == [ErrorText(e)]
  {
  }

  /** With a build ID and no error, every record carries it and no warning. */
  lemma ParseCarriesBuildId(deps: seq<Module>, file: seq<Byte>, newFile: seq<Byte> -> Result<ElfFile, string>, id: seq<Byte>)
    requires |deps| > 0
    requires BuildIdOf(file, newFile) == Done(id, None)
    ensures ParseOf(Success(deps), file, newFile) == Parsed(Assemble(deps, BytesToString(id), []))
  {
  }
}
