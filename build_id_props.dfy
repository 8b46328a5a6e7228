/**
 * What `readELF` and `getBuildID` promise: which headers are looked at, that a
 * Go note wins at once, that otherwise the last GNU note is the answer, that
 * a segment's bytes are the file's bytes whichever way they are fetched, and
 * how the header buffer is prepared.
 */
module BuildIdProps {
  import opened Wrappers
  import opened Types
  import opened Words
  import opened ElfNote
  import opened NoteEncoding
  import opened BuildId

  /** The program headers `readELF` looks at, in order. */
  function NoteProgs(progs: seq<Prog>): (r: seq<Prog>)
    ensures |r| <= |progs|
    ensures forall x :: x in r <==> x in progs && Examined(x)
  {
    if progs == [] then []
    else (if Examined(progs[0]) then [progs[0]] else []) + NoteProgs(progs[1..])
  }

  /** Headers that are not PT_NOTE, or too small for a note, make no difference to the scan. */
  lemma {:induction false} ScanSeesOnlyNoteProgs(order: ByteOrder, data: seq<Byte>, file: seq<Byte>,
                                                 progs: seq<Prog>, gnu: seq<Byte>)
    ensures ScanProgs(order, data, file, progs, gnu) == ScanProgs(order, data, file, NoteProgs(progs), gnu)
    decreases |progs|
  {
    if progs != [] {
      var p := progs[0];
      if Examined(p) {
        var rest := NoteProgs(progs[1..]);
        assert NoteProgs(progs) == [p] + rest;
        assert ([p] + rest)[1..] == rest;
        match LoadSegment(data, file, p)
        case LoadPanic =>
        case LoadFailed(_) =>
        case Loaded(note) =>
          var w := WalkGuarded(order, note, p.off, p.align, gnu);
          if w.Exhausted? {
            ScanSeesOnlyNoteProgs(order, data, file, progs[1..], w.gnu);
          }
      } else {
        assert NoteProgs(progs) == [] + NoteProgs(progs[1..]) == NoteProgs(progs[1..]);
        ScanSeesOnlyNoteProgs(order, data, file, progs[1..], gnu);
      }
    }
  }

  /**
   * A segment whose walk finds a Go note ends the scan with that note's
   * descriptor and no error, whatever GNU fallback came before and whatever
   * headers follow.
   */
  lemma GoNoteWins(order: ByteOrder, data: seq<Byte>, file: seq<Byte>, p: Prog, rest: seq<Prog>,
                   gnu: seq<Byte>, id: seq<Byte>)
    requires Examined(p) && LoadSegment(data, file, p).Loaded?
    requires WalkGuarded(order, LoadSegment(data, file, p).note, p.off, p.align, gnu) == GoFound(id)
    ensures ScanProgs(order, data, file, [p] + rest, gnu) == Done(id, None)
  {
    assert ([p] + rest)[0] == p;
  }

  /** A segment that cannot be read ends the scan with the reader's error, whatever headers follow. */
  lemma LoadFailureEndsScan(order: ByteOrder, data: seq<Byte>, file: seq<Byte>, p: Prog, rest: seq<Prog>,
                            gnu: seq<Byte>, e: IoError)
    requires Examined(p) && LoadSegment(data, file, p) == LoadFailed(e)
    ensures ScanProgs(order, data, file, [p] + rest, gnu) == Done([], Some(Io(e)))
  {
    assert ([p] + rest)[0] == p;
  }

  /** The scan fails only with the error of an examined segment that could not be read. */
  lemma {:induction false} ScanErrOnlyFromLoad(order: ByteOrder, data: seq<Byte>, file: seq<Byte>,
                                               progs: seq<Prog>, gnu: seq<Byte>)
    requires ScanProgs(order, data, file, progs, gnu).Done? && ScanProgs(order, data, file, progs, gnu).err.Some?
    ensures ScanProgs(order, data, file, progs, gnu).err.value.Io?
    ensures exists i :: 0 <= i < |progs| && Examined(progs[i]) &&
              LoadSegment(data, file, progs[i]) == LoadFailed(ScanProgs(order, data, file, progs, gnu).err.value.io)
    decreases |progs|
  {
    var r := ScanProgs(order, data, file, progs, gnu);
    var p := progs[0];
    var g := gnu;
    if Examined(p) {
      match LoadSegment(data, file, p)
      case LoadPanic =>
      case LoadFailed(e) =>
        assert Examined(progs[0]) && LoadSegment(data, file, progs[0]) == LoadFailed(r.err.value.io);
      case Loaded(note) =>
        g := WalkGuarded(order, note, p.off, p.align, gnu).gnu;
    }
    if !Examined(p) || LoadSegment(data, file, p).Loaded? {
      assert r == ScanProgs(order, data, file, progs[1..], g);
      ScanErrOnlyFromLoad(order, data, file, progs[1..], g);
      var i :| 0 <= i < |progs[1..]| && Examined(progs[1..][i]) &&
               LoadSegment(data, file, progs[1..][i]) == LoadFailed(r.err.value.io);
      assert progs[1..][i] == progs[i + 1];
    }
  }

  /** The notes of several segments, one after the other. */
  function Concat(nss: seq<seq<Note>>): seq<Note>
  {
    if nss == [] then [] else nss[0] + Concat(nss[1..])
  }

  /** Resolving notes in two runs: the second run only matters when the first has no Go note. */
  lemma {:induction false} ResolveAppend(ns1: seq<Note>, ns2: seq<Note>, gnu: seq<Byte>)
    ensures Resolve(ns1 + ns2, gnu) == if Resolve(ns1, gnu).GoFound? then Resolve(ns1, gnu)
                                       else Resolve(ns2, Resolve(ns1, gnu).gnu)
    decreases |ns1|
  {
    if ns1 != [] {
      assert (ns1 + ns2)[0] == ns1[0];
      assert (ns1 + ns2)[1..] == ns1[1..] + ns2;
      if !IsGoNote(ns1[0]) {
        ResolveAppend(ns1[1..], ns2, Fallback(ns1[0], gnu));
      }
    } else {
      assert ns1 + ns2 == ns2;
    }
  }

  /** The first Go note decides, whatever comes before or after it. */
  lemma {:induction false} ResolveFirstGo(ns: seq<Note>, gnu: seq<Byte>, k: nat)
    requires k < |ns| && IsGoNote(ns[k])
    requires forall j :: 0 <= j < k ==> !IsGoNote(ns[j])
    ensures Resolve(ns, gnu) == GoFound(ns[k].desc)
    decreases k
  {
    if k > 0 {
      ResolveFirstGo(ns[1..], Fallback(ns[0], gnu), k - 1);
    }
  }

  /** The descriptor of the last GNU note of `ns`, or `gnu` when there is none. */
  function LastGnu(ns: seq<Note>, gnu: seq<Byte>): (g: seq<Byte>)
    ensures g == gnu || exists i :: 0 <= i < |ns| && IsGnuNote(ns[i]) && g == ns[i].desc
    ensures (forall i :: 0 <= i < |ns| ==> !IsGnuNote(ns[i])) ==> g == gnu
  {
    if ns == [] then gnu
    else if IsGnuNote(ns[|ns| - 1]) then ns[|ns| - 1].desc
    else LastGnu(ns[..|ns| - 1], gnu)
  }

  /** When `ns` has a GNU note, `LastGnu` is the descriptor of the one no other GNU note follows. */
  lemma {:induction false} LastGnuIsLast(ns: seq<Note>, gnu: seq<Byte>, k: nat)
    requires k < |ns| && IsGnuNote(ns[k])
    requires forall j :: k < j < |ns| ==> !IsGnuNote(ns[j])
    ensures LastGnu(ns, gnu) == ns[k].desc
    decreases |ns|
  {
    if k < |ns| - 1 {
      var init := ns[..|ns| - 1];
      assert init[k] == ns[k];
      assert forall j :: k < j < |init| ==> init[j] == ns[j];
      LastGnuIsLast(init, gnu, k);
    }
  }

  /** Without a Go note, the last GNU note wins: a later GNU note overrides an earlier one. */
  lemma {:induction false} ResolveLastGnu(ns: seq<Note>, gnu: seq<Byte>)
    requires forall i :: 0 <= i < |ns| ==> !IsGoNote(ns[i])
    ensures Resolve(ns, gnu) == Exhausted(LastGnu(ns, gnu))
    decreases |ns|
  {
    if ns != [] {
      var init, last := ns[..|ns| - 1], ns[|ns| - 1];
      assert ns == init + [last];
      ResolveLastGnu(init, gnu);
      ResolveAppend(init, [last], gnu);
    }
  }

  /** A segment of `p` that holds exactly the encoded notes `ns`, within the bounds of the round trip. */
  predicate SegmentHolds(order: ByteOrder, data: seq<Byte>, file: seq<Byte>, p: Prog, ns: seq<Note>)
  {
    && Examined(p)
    && (forall i :: 0 <= i < |ns| ==> Encodable(ns[i]))
    && p.filesz < UINT32_LIMIT
    && p.off + p.filesz + p.align < UINT64_LIMIT
    && (p.align == 0 || PowerOfTwo(p.align))
    && LoadSegment(data, file, p) == Loaded(EncodeNotes(order, ns, p.off, p.align))
  }

  /** Every examined header holds its notes `nss[i]`; the others count as holding none. */
  predicate LaidOut(order: ByteOrder, data: seq<Byte>, file: seq<Byte>, progs: seq<Prog>, nss: seq<seq<Note>>)
  {
    && |nss| == |progs|
    && forall i :: 0 <= i < |progs| ==>
         if Examined(progs[i]) then SegmentHolds(order, data, file, progs[i], nss[i]) else nss[i] == []
  }

  /** The pair `(buildid, nil)` a finished resolution stands for. */
  function AsOutcome(w: WalkResult): (o: Outcome)
    requires w.GoFound? || w.Exhausted?
    ensures o.Done? && o.err.None?
    ensures o.id == if w.GoFound? then w.id else w.gnu
  {
    match w
    case GoFound(id) => Done(id, None)
    case Exhausted(g) => Done(g, None)
  }

  /**
   * Scanning well-formed note segments finds the first Go note of all the
   * segments together, or else the last GNU note, and never fails.
   */
  lemma {:induction false} ScanLaidOut(order: ByteOrder, data: seq<Byte>, file: seq<Byte>, progs: seq<Prog>,
                                       nss: seq<seq<Note>>, gnu: seq<Byte>)
    requires LaidOut(order, data, file, progs, nss)
    ensures ScanProgs(order, data, file, progs, gnu) == AsOutcome(Resolve(Concat(nss), gnu))
    decreases |progs|
  {
    if progs != [] {
      var p := progs[0];
      assert LaidOut(order, data, file, progs[1..], nss[1..]) by {
        forall i | 0 <= i < |progs| - 1
          ensures if Examined(progs[1..][i]) then SegmentHolds(order, data, file, progs[1..][i], nss[1..][i])
                  else nss[1..][i] == []
        {
          assert progs[1..][i] == progs[i + 1] && nss[1..][i] == nss[i + 1];
        }
      }
      assert Concat(nss) == nss[0] + Concat(nss[1..]);
      if !Examined(p) {
        assert nss[0] + Concat(nss[1..]) == Concat(nss[1..]);
        ScanLaidOut(order, data, file, progs[1..], nss[1..], gnu);
      } else {
        assert SegmentHolds(order, data, file, p, nss[0]);
        WalkEncodedNotes(order, nss[0], p.off, p.align, gnu);
        ResolveAppend(nss[0], Concat(nss[1..]), gnu);
        match Resolve(nss[0], gnu)
        case GoFound(_) =>
        case Exhausted(g) => ScanLaidOut(order, data, file, progs[1..], nss[1..], g);
      }
    }
  }

  /**
   * End to end for `readELF`: a 64-bit file whose note segments are well
   * formed yields the first Go note, else the last GNU note, else the empty
   * build ID, and never an error.
   */
  lemma ReadElfFindsBuildId(file: seq<Byte>, data: seq<Byte>, newFile: seq<Byte> -> Result<ElfFile, string>,
                            ef: ElfFile, nss: seq<seq<Note>>)
    requires |data| >= 62 && data[EI_CLASS] == ELFCLASS64
    requires newFile(Sanitized(data)) == Success(ef)
    requires LaidOut(ef.order, Sanitized(data), file, ef.progs, nss)
    ensures ReadElfOf(file, data, newFile) == AsOutcome(Resolve(Concat(nss), []))
  {
    ScanLaidOut(ef.order, Sanitized(data), file, ef.progs, nss, []);
  }

  /**
   * Whether the segment is sliced from the header buffer or read again from
   * the file, its bytes are the file's bytes, provided the buffer agrees with
   * the file where they overlap.
   */
  lemma LoadAgrees(data: seq<Byte>, file: seq<Byte>, p: Prog)
    requires p.off + p.filesz <= |file| < INT64_LIMIT
    requires forall i :: p.off <= i < p.off + p.filesz && i < |data| ==> data[i] == file[i]
    ensures LoadSegment(data, file, p) == Loaded(file[p.off..p.off + p.filesz])
  {
    if p.off + p.filesz < |data| {
      assert data[p.off..p.off + p.filesz] == file[p.off..p.off + p.filesz];
    }
  }

  /** The header rewrite keeps the identification bytes (magic and class), and doing it twice is doing it once. */
  lemma PreparedStable(d: seq<Byte>)
    requires |d| >= 62
    ensures Prepared(d)[..40] == d[..40]
    ensures Prepared(Prepared(d)) == Prepared(d)
  {
    if d[EI_CLASS] == ELFCLASS64 {
      var s := Sanitized(d);
      assert s[EI_CLASS] == d[EI_CLASS];
      assert Sanitized(s) == s;
    }
  }

  /** The 32 KiB buffer `getBuildID` fills: the start of the file, padded with zeros after a short read. */
  function HeaderOf(file: seq<Byte>): (h: seq<Byte>)
    ensures |h| == READ_SIZE
    ensures forall i :: 0 <= i < READ_SIZE ==> h[i] == if i < |file| then file[i] else 0
  {
    if |file| >= READ_SIZE then file[..READ_SIZE] else file + Zeros(READ_SIZE - |file|)
  }

  /** An ELF file of at least 8 bytes reaches `readELF` with its header buffer, even when shorter than 32 KiB. */
  lemma ElfReachesReadElf(file: seq<Byte>, newFile: seq<Byte> -> Result<ElfFile, string>)
    requires |file| >= 8 && file[..4] == ELF_MAGIC
    ensures BuildIdOf(file, newFile) == ReadElfOf(file, HeaderOf(file), newFile)
  {
    assert file[..8] != ARCH_MAGIC by { assert file[0] != ARCH_MAGIC[0]; }
    assert file[..8] != BIGAF_MAGIC by { assert file[0] != BIGAF_MAGIC[0]; }
    var rd := ReadFull(file, 0, READ_SIZE);
    assert rd.buf == HeaderOf(file);
    assert rd.buf[..4] == ELF_MAGIC;
  }
}
