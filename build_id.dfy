/**
 * `getBuildID` and `readELF`: sniffing the first bytes of an executable and,
 * for a 64-bit ELF file, scanning the notes of its PT_NOTE program headers
 * for the Go build ID (falling back to the GNU build ID).
 *
 * The file is an immutable byte sequence read through an in-memory reader
 * whose cursor starts at offset 0. Decoding the ELF header and the program
 * header table (`elf.NewFile`) is the parameter `newFile`: it maps the
 * 32 KiB header buffer to a byte order and a list of program headers, or to
 * an error message.
 */
module BuildId {
  import opened Wrappers
  import opened Types
  import opened Words
  import opened ElfNote

  /** `readSize`: the buffer `getBuildID` hands to `readELF`. */
  const READ_SIZE: nat := 32 * 1024
  /** Offsets at or above this are negative once converted to `int64` for `Seek`. */
  const INT64_LIMIT: int := 0x8000_0000_0000_0000

  /** `elf.PT_NOTE` */
  const PT_NOTE: Uint32 := 4
  /** `elf.EI_CLASS`, the index of the class byte in the ELF identification. */
  const EI_CLASS: nat := 4
  const ELFCLASS32: Byte := 1
  const ELFCLASS64: Byte := 2

  /** "\x7fELF" */
  const ELF_MAGIC: seq<Byte> := [0x7f, 0x45, 0x4c, 0x46]
  /** "!<arch>\n", the magic of an ar archive. */
  const ARCH_MAGIC: seq<Byte> := [0x21, 0x3c, 0x61, 0x72, 0x63, 0x68, 0x3e, 0x0a]
  /** "<bigaf>\n", the magic of an AIX big archive. */
  const BIGAF_MAGIC: seq<Byte> := [0x3c, 0x62, 0x69, 0x67, 0x61, 0x66, 0x3e, 0x0a]

  /** The fields of an `elf.Prog` that `readELF` reads. */
  datatype Prog = Prog(ptype: Uint32, off: Uint64, filesz: Uint64, align: Uint64)

  /** What `elf.NewFile` yields that `readELF` uses. */
  datatype ElfFile = ElfFile(order: ByteOrder, progs: seq<Prog>)

  /** The errors of the in-memory reader: `io.EOF`, `io.ErrUnexpectedEOF`, a seek to a negative offset. */
  datatype IoError = EOF | UnexpectedEOF | NegativeOffset

  datatype Error =
    | ProgramNotSupported        // errProgramNotSupported
    | Io(io: IoError)            // a read or seek error, passed on unchanged
    | ElfFormat(message: string) // the error of elf.NewFile, passed on unchanged

  /**
   * How a call ends: with the Go pair `(buildid, err)` (`err` is None for
   * nil), or with a run-time panic (a segment end `Off+Filesz` that wraps).
   */
  datatype Outcome =
    | Done(id: seq<Byte>, err: Option<Error>)
    | Panicked

  /** The result of `io.ReadFull`: the buffer (zero where nothing was read) and the error. */
  datatype ReadResult = ReadResult(buf: seq<Byte>, err: Option<IoError>)

  /**
   * `io.ReadFull` of `n` bytes with the cursor at `pos`: all `n` bytes, or
   * EOF when none is left, or ErrUnexpectedEOF after a partial read.
   */
  function ReadFull(file: seq<Byte>, pos: nat, n: nat): (r: ReadResult)
    ensures |r.buf| == n
    ensures r.err.None? <==> pos + n <= |file| || n == 0
    ensures pos + n <= |file| ==> r == ReadResult(file[pos..pos + n], None)
    ensures r.err == Some(EOF) <==> n > 0 && pos >= |file|
    ensures pos < |file| ==> r.buf[..Min(n, |file| - pos)] == file[pos..pos + Min(n, |file| - pos)]
  {
    if pos + n <= |file| then ReadResult(file[pos..pos + n], None)
    else if n == 0 then ReadResult([], None)
    else if pos >= |file| then ReadResult(Zeros(n), Some(EOF))
    else ReadResult(file[pos..] + Zeros(n - (|file| - pos)), Some(UnexpectedEOF))
  }

  function Min(a: int, b: int): int
  {
    if a <= b then a else b
  }

  /** Only PT_NOTE headers with room for at least one note header and name are looked at. */
  predicate Examined(p: Prog)
  {
    p.ptype == PT_NOTE && p.filesz >= NOTE_DATA_OFFSET
  }

  /** Getting the bytes of one PT_NOTE segment. */
  datatype Load = Loaded(note: seq<Byte>) | LoadFailed(err: IoError) | LoadPanic

  /**
   * The bytes of the segment of `p`: sliced from the header buffer `data`
   * when `Off+Filesz` (in uint64) is below its length, else read again from
   * the file at `Off`. A wrapped `Off+Filesz` makes the slice panic.
   */
  function LoadSegment(data: seq<Byte>, file: seq<Byte>, p: Prog): (r: Load)
    ensures r.Loaded? ==> |r.note| == p.filesz
    ensures r.LoadPanic? <==> p.off + p.filesz >= UINT64_LIMIT && p.off + p.filesz - UINT64_LIMIT < |data|
    ensures r.Loaded? && p.off + p.filesz < |data| ==> r.note == data[p.off..p.off + p.filesz]
    ensures r.Loaded? && p.filesz > 0 && p.off + p.filesz >= |data| ==>
              p.off + p.filesz <= |file| && r.note == file[p.off..p.off + p.filesz]
    ensures r.LoadFailed? <==> Add64(p.off, p.filesz) >= |data| &&
                               (p.off >= INT64_LIMIT || (p.filesz > 0 && p.off + p.filesz > |file|))
    ensures r.LoadFailed? ==> r.err == if p.off >= INT64_LIMIT then NegativeOffset
                                       else if p.off >= |file| then EOF
                                       else UnexpectedEOF
  {
    var end := Add64(p.off, p.filesz);
    if end < |data| then
      if end < p.off then LoadPanic else Loaded(data[p.off..end])
    else if p.off >= INT64_LIMIT then LoadFailed(NegativeOffset)
    else
      var rd := ReadFull(file, p.off, p.filesz);
      if rd.err.Some? then LoadFailed(rd.err.value) else Loaded(rd.buf)
  }

  /**
   * The outer loop of `readELF` over the program headers `progs`, with the
   * GNU fallback `gnu` collected so far; each segment is walked with the
   * corrected walk. After the last header the fallback is the build ID; when
   * it is empty that is the empty build ID without error.
   */
  function ScanProgs(order: ByteOrder, data: seq<Byte>, file: seq<Byte>, progs: seq<Prog>, gnu: seq<Byte>): (r: Outcome)
    ensures r.Done? && r.err.Some? ==> r.id == []
    decreases |progs|
  {
    if progs == [] then Done(gnu, None)
    else
      var p := progs[0];
      if !Examined(p) then ScanProgs(order, data, file, progs[1..], gnu)
      else
        match LoadSegment(data, file, p)
        case LoadPanic => Panicked
        case LoadFailed(e) => Done([], Some(Io(e)))
        case Loaded(note) =>
          var w := WalkGuarded(order, note, p.off, p.align, gnu);
          if w.GoFound? then Done(w.id, None) else ScanProgs(order, data, file, progs[1..], w.gnu)
  }

  /** e_shoff (bytes 40-47) and e_shnum (bytes 60-61) of a 64-bit ELF header. */
  predicate Zeroed(i: int)
  {
    40 <= i < 48 || i == 60 || i == 61
  }

  /** The header buffer with e_shoff and e_shnum cleared, so that no section header is decoded. */
  function Sanitized(d: seq<Byte>): (s: seq<Byte>)
    requires |d| >= 62
    ensures |s| == |d|
    ensures forall i :: 0 <= i < |d| ==> s[i] == if Zeroed(i) then 0 else d[i]
  {
    d[..40] + Zeros(8) + d[48..60] + [0, 0] + d[62..]
  }

  /** The buffer `elf.NewFile` is given: sanitized for a 64-bit class, else as read. */
  function Prepared(d: seq<Byte>): (s: seq<Byte>)
    requires |d| >= 62
  {
    if d[EI_CLASS] == ELFCLASS64 then Sanitized(d) else d
  }

  /** `readELF(r, data)` with the file's bytes `file` behind `r`. */
  function ReadElfOf(file: seq<Byte>, data: seq<Byte>, newFile: seq<Byte> -> Result<ElfFile, string>): (r: Outcome)
    requires |data| >= 62
    ensures r.Done? && r.err.Some? ==> r.id == []
    ensures data[EI_CLASS] == ELFCLASS32 ==> r == Done([], Some(ProgramNotSupported))
    ensures data[EI_CLASS] != ELFCLASS32 && newFile(Prepared(data)).Failure? ==>
              r == Done([], Some(ElfFormat(newFile(Prepared(data)).error)))
    ensures data[EI_CLASS] != ELFCLASS32 && newFile(Prepared(data)).Success? ==>
              var ef := newFile(Prepared(data)).value;
              r == ScanProgs(ef.order, Prepared(data), file, ef.progs, [])
  {
    if data[EI_CLASS] == ELFCLASS32 then Done([], Some(ProgramNotSupported))
    else
      var d := Prepared(data);
      match newFile(d)
      case Failure(message) => Done([], Some(ElfFormat(message)))
      case Success(ef) => ScanProgs(ef.order, d, file, ef.progs, [])
  }

  /** `getBuildID(r)` with the file's bytes `file` behind `r`. */
  function BuildIdOf(file: seq<Byte>, newFile: seq<Byte> -> Result<ElfFile, string>): (r: Outcome)
    ensures r.Done? && r.err.Some? ==> r.id == []
    ensures |file| < 8 ==> r == Done([], Some(Io(EOF)))
    ensures |file| >= 8 && (file[..8] == ARCH_MAGIC || file[..8] == BIGAF_MAGIC || file[..4] != ELF_MAGIC)
            ==> r == Done([], Some(ProgramNotSupported))
  {
    if |file| < 8 then Done([], Some(Io(EOF)))
    else if file[..8] != ARCH_MAGIC then
      if file[..8] == BIGAF_MAGIC then Done([], Some(ProgramNotSupported))
      else
        var rd := ReadFull(file, 0, READ_SIZE);
        // A short read is not an error.
        var err := if rd.err == Some(UnexpectedEOF) then None else rd.err;
        if err.Some? then Done([], Some(Io(err.value)))
        else if rd.buf[..4] == ELF_MAGIC then ReadElfOf(file, rd.buf, newFile)
        else Done([], Some(ProgramNotSupported))
    else Done([], Some(ProgramNotSupported))
  }

  /** The header rewrite of `readELF` for a 64-bit file, in place. */
  method SanitizeHeader(data: array<Byte>)
    requires data.Length >= 62
    modifies data
    ensures data[..] == Sanitized(old(data[..]))
  {
    ghost var d := data[..];
    data[40], data[41], data[42], data[43] := 0, 0, 0, 0;
    data[44], data[45], data[46], data[47] := 0, 0, 0, 0;
    data[60] := 0;
    data[61] := 0;
    assert forall i | 0 <= i < data.Length :: data[i] == if Zeroed(i) then 0 else d[i];
  }

  /**
   * `readELF`: reject a 32-bit class, clear the section-header fields of a
   * 64-bit header in place, then walk the notes of every examined segment.
   */
  method ReadElf(file: seq<Byte>, data: array<Byte>, newFile: seq<Byte> -> Result<ElfFile, string>)
    returns (o: Outcome)
    requires data.Length == READ_SIZE
    modifies data
    ensures data[..] == Prepared(old(data[..]))
    ensures o == ReadElfOf(file, old(data[..]), newFile)
  {
    if data[EI_CLASS] == ELFCLASS32 {
      return Done([], Some(ProgramNotSupported));
    }
    if data[EI_CLASS] == ELFCLASS64 {
      SanitizeHeader(data);
    }
    var bytes := data[..];
    var parsed := newFile(bytes);
    if parsed.Failure? {
      return Done([], Some(ElfFormat(parsed.error)));
    }
    var order, progs := parsed.value.order, parsed.value.progs;
    var gnu: seq<Byte> := [];
    for i := 0 to |progs|
      invariant data[..] == bytes
      invariant ScanProgs(order, bytes, file, progs[i..], gnu) == ScanProgs(order, bytes, file, progs, [])
    {
      var p := progs[i];
      assert progs[i..][1..] == progs[i + 1..];
      if p.ptype != PT_NOTE || p.filesz < NOTE_DATA_OFFSET {
        continue;
      }
      var note: seq<Byte>;
      var end := Add64(p.off, p.filesz);
      if end < data.Length {
        if end < p.off {
          return Panicked;
        }
        note := data[p.off..end];
      } else {
        if p.off >= INT64_LIMIT {
          return Done([], Some(Io(NegativeOffset)));
        }
        var rd := ReadFull(file, p.off, p.filesz);
        if rd.err.Some? {
          return Done([], Some(Io(rd.err.value)));
        }
        note := rd.buf;
      }
      assert LoadSegment(bytes, file, p) == Loaded(note);
      var w := WalkSegment(order, note, p.off, p.align, gnu);
      if w.GoFound? {
        return Done(w.id, None);
      }
      gnu := w.gnu;
    }
    if gnu != [] {
      return Done(gnu, None);
    }
    return Done([], None);
  }

  /** `getBuildID`: check the magic, fill a 32 KiB buffer (a short read is fine) and hand an ELF file to ReadElf. */
  method GetBuildId(file: seq<Byte>, newFile: seq<Byte> -> Result<ElfFile, string>) returns (o: Outcome)
    ensures o == BuildIdOf(file, newFile)
  {
    if |file| < 8 {
      return Done([], Some(Io(EOF)));
    }
    var buf := file[..8];
    if buf != ARCH_MAGIC {
      if buf == BIGAF_MAGIC {
        return Done([], Some(ProgramNotSupported));
      }
      var rd := ReadFull(file, 0, READ_SIZE);
      var err := rd.err;
      if err == Some(UnexpectedEOF) {
        err := None;
      }
      if err.Some? {
        return Done([], Some(Io(err.value)));
      }
      if rd.buf[..4] == ELF_MAGIC {
        var data := new Byte[READ_SIZE](i requires 0 <= i < READ_SIZE => rd.buf[i]);
        assert data[..] == rd.buf;
        o := ReadElf(file, data, newFile);
        return;
      }
    }
    return Done([], Some(ProgramNotSupported));
  }
}
