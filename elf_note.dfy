/**
 * The inner loop of `readELF`: walking the note records of one PT_NOTE
 * segment. Each record is a 12-byte header (namesz, descsz, type, in the
 * file's byte order), the name and the descriptor, both padded to 4 bytes,
 * as section "Note Section" of the System V ABI lays them out.
 *
 * `Walk` is the walk exactly as written, including its uint32/uint64
 * wrap-around. Where the Go code would panic (a slice out of range) it
 * yields WalkPanic, and where it would loop forever (a step of 0 leaves the
 * loop state unchanged) it yields WalkHang. `WalkGuarded` is the walk with
 * those three defects corrected; the loop `WalkSegment`, and through it
 * `readELF`, follow the corrected walk.
 */
module ElfNote {
  import opened Types
  import opened Words

  const NOTE_FIELDS_OFFSET: int := 12
  const NOTE_DATA_OFFSET: int := 16
  const NOTE_NAME_SIZE: int := 4
  const GO_BUILD_ID_TAG: Uint32 := 4
  const GNU_BUILD_ID_TAG: Uint32 := 3
  /** "Go\x00\x00" */
  const GO_NOTE_NAME: seq<Byte> := [0x47, 0x6f, 0x00, 0x00]
  /** "GNU\x00" */
  const GNU_NOTE_NAME: seq<Byte> := [0x47, 0x4e, 0x55, 0x00]

  /**
   * How the walk of one segment ends: a Go build-ID note returns at once;
   * otherwise the walk runs out of records and hands back the current GNU
   * fallback (possibly replaced by a GNU note of this segment).
   */
  datatype WalkResult =
    | GoFound(id: seq<Byte>)
    | Exhausted(gnu: seq<Byte>)
    | WalkPanic
    | WalkHang

  function NameSize(order: ByteOrder, note: seq<Byte>): Uint32
    requires |note| >= NOTE_DATA_OFFSET
  {
    DecodeUint32(order, note, 0)
  }

  function DescSize(order: ByteOrder, note: seq<Byte>): Uint32
    requires |note| >= NOTE_DATA_OFFSET
  {
    DecodeUint32(order, note, 4)
  }

  function NoteType(order: ByteOrder, note: seq<Byte>): Uint32
    requires |note| >= NOTE_DATA_OFFSET
  {
    DecodeUint32(order, note, 8)
  }

  function NoteName(note: seq<Byte>): seq<Byte>
    requires |note| >= NOTE_DATA_OFFSET
  {
    [note[12], note[13], note[14], note[15]]
  }

  /** The name bytes are the slice `note[12:16]`. */
  lemma NoteNameSlice(note: seq<Byte>)
    requires |note| >= NOTE_DATA_OFFSET
    ensures note[NOTE_FIELDS_OFFSET..NOTE_FIELDS_OFFSET + NOTE_NAME_SIZE] == NoteName(note)
  {
  }

  /**
   * The record test of the Go code: a 4-byte name equal to `name`, type `tag`,
   * and `16+descsz <= uint32(len(note))` with both sides computed in uint32.
   */
  predicate Matches(order: ByteOrder, note: seq<Byte>, tag: Uint32, name: seq<Byte>)
    requires |note| >= NOTE_DATA_OFFSET
  {
    && NameSize(order, note) == NOTE_NAME_SIZE
    && Add32(NOTE_DATA_OFFSET, DescSize(order, note)) <= Trunc32(|note|)
    && NoteType(order, note) == tag
    && NoteName(note) == name
  }

  /** True when `16+descsz` wraps in uint32, so that slicing the descriptor panics. */
  predicate DescWraps(order: ByteOrder, note: seq<Byte>)
    requires |note| >= NOTE_DATA_OFFSET
  {
    NOTE_DATA_OFFSET + DescSize(order, note) >= UINT32_LIMIT
  }

  /** The descriptor bytes `note[16 : 16+descsz]`. */
  function Descriptor(order: ByteOrder, note: seq<Byte>): (d: seq<Byte>)
    requires |note| >= NOTE_DATA_OFFSET
    requires NOTE_DATA_OFFSET + DescSize(order, note) <= |note|
    ensures |d| == DescSize(order, note)
  {
    note[NOTE_DATA_OFFSET..NOTE_DATA_OFFSET + DescSize(order, note)]
  }

  /** `uint64(12 + align4(namesz) + align4(descsz))`, the sum taken in uint32. */
  function StepSize(order: ByteOrder, note: seq<Byte>): Uint32
    requires |note| >= NOTE_DATA_OFFSET
  {
    Add32(Add32(NOTE_FIELDS_OFFSET, Align4(NameSize(order, note))), Align4(DescSize(order, note)))
  }

  /** The step to the next record and the running offset after it. */
  datatype Advance = Advance(step: Uint64, off: Uint64)

  /**
   * Move the running offset past a record of `step` bytes and, when the
   * segment declares an alignment, round the offset up and add the padding
   * to the step; all in uint64.
   */
  function AdvanceBy(off: Uint64, step: Uint32, align: Uint64): Advance
  {
    var next := Add64(off, step);
    if align == 0 then Advance(step, next)
    else
      var aligned := AlignUp(next, align);
      Advance(Add64(step, Sub64(aligned, next)), aligned)
  }

  /**
   * With no alignment, or a power-of-two one, and no wrap-around, the step
   * past a record is its size plus the padding that brings the offset to the
   * next multiple of the alignment.
   */
  lemma AdvancePadded(off: Uint64, step: Uint32, align: Uint64)
    requires align == 0 || PowerOfTwo(align)
    requires off + step + align < UINT64_LIMIT
    ensures AdvanceBy(off, step, align) == Advance(step + Pad(off + step, align), off + step + Pad(off + step, align))
  {
    if align != 0 {
      AlignUpPad(off + step, align);
    }
  }

  /**
   * The note walk of one segment as written: `note` is the unread part of the
   * segment (its length is the Go variable `filesz`), `off` the running file
   * offset, `gnu` the fallback seen so far. The loop runs while at least a
   * header and a name fit.
   */
  function Walk(order: ByteOrder, note: seq<Byte>, off: Uint64, align: Uint64, gnu: seq<Byte>): WalkResult
    decreases |note|, 2
  {
    if |note| < NOTE_DATA_OFFSET then Exhausted(gnu) else WalkRecord(order, note, off, align, gnu)
  }

  /** The tests of the loop body on the record at the front of `note`: a Go note ends the walk, a GNU note replaces the fallback. */
  function WalkRecord(order: ByteOrder, note: seq<Byte>, off: Uint64, align: Uint64, gnu: seq<Byte>): WalkResult
    requires |note| >= NOTE_DATA_OFFSET
    decreases |note|, 1
  {
    if Matches(order, note, GO_BUILD_ID_TAG, GO_NOTE_NAME) then
      if DescWraps(order, note) then WalkPanic else GoFound(Descriptor(order, note))
    else if Matches(order, note, GNU_BUILD_ID_TAG, GNU_NOTE_NAME) then
      if DescWraps(order, note) then WalkPanic else WalkAdvance(order, note, off, align, Descriptor(order, note))
    else
      WalkAdvance(order, note, off, align, gnu)
  }

  /** The end of the loop body: step past the record at the front of `note` and walk on, with fallback `gnu`. */
  function WalkAdvance(order: ByteOrder, note: seq<Byte>, off: Uint64, align: Uint64, gnu: seq<Byte>): WalkResult
    requires |note| >= NOTE_DATA_OFFSET
    decreases |note|, 0
  {
    var step := StepSize(order, note);
    if |note| <= step then Exhausted(gnu)
    else
      var a := AdvanceBy(off, step, align);
      if a.step > |note| then WalkPanic
      else if a.step == 0 then WalkHang
      else Walk(order, note[a.step..], a.off, align, gnu)
  }

  /**
   * The walk neither stops nor fails at the record at the front of `note`: it
   * moves `step` bytes on, to file offset `next`, with fallback `gnu'`.
   */
  predicate StepsOver(order: ByteOrder, note: seq<Byte>, off: Uint64, align: Uint64, gnu: seq<Byte>,
                      step: Uint64, next: Uint64, gnu': seq<Byte>)
  {
    && |note| >= NOTE_DATA_OFFSET
    && !Matches(order, note, GO_BUILD_ID_TAG, GO_NOTE_NAME)
    && !(Matches(order, note, GNU_BUILD_ID_TAG, GNU_NOTE_NAME) && DescWraps(order, note))
    && gnu' == (if Matches(order, note, GNU_BUILD_ID_TAG, GNU_NOTE_NAME) then Descriptor(order, note) else gnu)
    && StepSize(order, note) < |note|
    && AdvanceBy(off, StepSize(order, note), align) == Advance(step, next)
    && 0 < step <= |note|
  }

  /** One step of the walk over a record that is neither a Go note nor a panicking GNU note. */
  lemma WalkStep(order: ByteOrder, note: seq<Byte>, off: Uint64, align: Uint64, gnu: seq<Byte>,
                 step: Uint64, next: Uint64, gnu': seq<Byte>)
    requires StepsOver(order, note, off, align, gnu, step, next, gnu')
    ensures Walk(order, note, off, align, gnu) == Walk(order, note[step..], next, align, gnu')
  {
    assert WalkAdvance(order, note, off, align, gnu') == Walk(order, note[step..], next, align, gnu');
  }


  /**
   * The record test with full-width arithmetic: `16+descsz` is compared with
   * the real length of the remaining bytes, so nothing can wrap.
   */
  predicate MatchesExactly(order: ByteOrder, note: seq<Byte>, tag: Uint32, name: seq<Byte>)
    requires |note| >= NOTE_DATA_OFFSET
  {
    && NameSize(order, note) == NOTE_NAME_SIZE
    && NOTE_DATA_OFFSET + DescSize(order, note) <= |note|
    && NoteType(order, note) == tag
    && NoteName(note) == name
  }

  /**
   * Below 4 GiB, the test as written and a descriptor that does not wrap
   * together are the full-width test.
   */
  lemma ExactTest(order: ByteOrder, note: seq<Byte>, tag: Uint32, name: seq<Byte>)
    requires NOTE_DATA_OFFSET <= |note| < UINT32_LIMIT
    ensures Matches(order, note, tag, name) && !DescWraps(order, note) <==> MatchesExactly(order, note, tag, name)
    ensures DescWraps(order, note) ==> !MatchesExactly(order, note, tag, name)
  {
  }

  /**
   * The walk as evidently intended: descriptors are bounded without wrap-around,
   * and a step that is 0 or runs past the end of the segment ends the walk of
   * the segment instead of looping forever or slicing out of range. Like Walk,
   * it is split into the loop test, the record tests and the step.
   */
  function WalkGuarded(order: ByteOrder, note: seq<Byte>, off: Uint64, align: Uint64, gnu: seq<Byte>): (r: WalkResult)
    ensures r.GoFound? || r.Exhausted?
    decreases |note|, 2
  {
    if |note| < NOTE_DATA_OFFSET then Exhausted(gnu) else GuardedRecord(order, note, off, align, gnu)
  }

  /** The GNU fallback after the record at the front of `note`. */
  function GnuAfter(order: ByteOrder, note: seq<Byte>, gnu: seq<Byte>): seq<Byte>
    requires |note| >= NOTE_DATA_OFFSET
  {
    if MatchesExactly(order, note, GNU_BUILD_ID_TAG, GNU_NOTE_NAME) then Descriptor(order, note) else gnu
  }

  /** The record tests of the corrected walk: a Go note ends it, a GNU note replaces the fallback. */
  function GuardedRecord(order: ByteOrder, note: seq<Byte>, off: Uint64, align: Uint64, gnu: seq<Byte>): (r: WalkResult)
    requires |note| >= NOTE_DATA_OFFSET
    ensures r.GoFound? || r.Exhausted?
    decreases |note|, 1
  {
    if MatchesExactly(order, note, GO_BUILD_ID_TAG, GO_NOTE_NAME) then GoFound(Descriptor(order, note))
    else GuardedAdvance(order, note, off, align, GnuAfter(order, note, gnu))
  }

  /** The step of the corrected walk: a step of 0 or past the end of the segment ends the walk. */
  function GuardedAdvance(order: ByteOrder, note: seq<Byte>, off: Uint64, align: Uint64, gnu: seq<Byte>): (r: WalkResult)
    requires |note| >= NOTE_DATA_OFFSET
    ensures r.GoFound? || r.Exhausted?
    decreases |note|, 0
  {
    var step := StepSize(order, note);
    if |note| <= step then Exhausted(gnu)
    else
      var a := AdvanceBy(off, step, align);
      if a.step == 0 || a.step > |note| then Exhausted(gnu)
      else WalkGuarded(order, note[a.step..], a.off, align, gnu)
  }

  /**
   * The corrected walk does not stop at the record at the front of `note`: it
   * moves `step` bytes on, to file offset `next`, with fallback `gnu'`.
   */
  predicate GuardedStepsOver(order: ByteOrder, note: seq<Byte>, off: Uint64, align: Uint64, gnu: seq<Byte>,
                             step: Uint64, next: Uint64, gnu': seq<Byte>)
  {
    && |note| >= NOTE_DATA_OFFSET
    && !MatchesExactly(order, note, GO_BUILD_ID_TAG, GO_NOTE_NAME)
    && gnu' == GnuAfter(order, note, gnu)
    && StepSize(order, note) < |note|
    && AdvanceBy(off, StepSize(order, note), align) == Advance(step, next)
    && 0 < step <= |note|
  }

  /** One step of the corrected walk over a record that is not a Go note. */
  lemma GuardedStep(order: ByteOrder, note: seq<Byte>, off: Uint64, align: Uint64, gnu: seq<Byte>,
                    step: Uint64, next: Uint64, gnu': seq<Byte>)
    requires GuardedStepsOver(order, note, off, align, gnu, step, next, gnu')
    ensures WalkGuarded(order, note, off, align, gnu) == WalkGuarded(order, note[step..], next, align, gnu')
  {
    assert GuardedAdvance(order, note, off, align, gnu') == WalkGuarded(order, note[step..], next, align, gnu');
  }

  /** What one pass of the loop body decides: the walk ends with `result`, or it moves on. */
  datatype RecordStep =
    | Stop(result: WalkResult)
    | Skip(step: Uint64, next: Uint64, gnu: seq<Byte>)

  /**
   * The body of the inner loop of `readELF` on the record at the front of
   * `note`, corrected: the Go and GNU tests bound the descriptor without
   * wrap-around, then the step past the record is rounded up to the segment
   * alignment. A `break` or `return` of the Go code gives Stop, as does a step
   * of 0 or one past the end of the segment; Skip carries the new step,
   * offset and fallback.
   */
  method VisitRecord(order: ByteOrder, note: seq<Byte>, off: Uint64, align: Uint64, gnuIn: seq<Byte>)
    returns (s: RecordStep)
    requires NOTE_DATA_OFFSET <= |note| < UINT64_LIMIT
    ensures s.Stop? ==> s.result == GuardedRecord(order, note, off, align, gnuIn)
    ensures s.Skip? ==> GuardedStepsOver(order, note, off, align, gnuIn, s.step, s.next, s.gnu)
  {
    var filesz: Uint64 := |note|;
    var gnu := gnuIn;
    var nameSize := DecodeUint32(order, note, 0);
    var valSize := DecodeUint32(order, note, 4);
    var tag := DecodeUint32(order, note, 8);
    var nname := note[NOTE_FIELDS_OFFSET..NOTE_FIELDS_OFFSET + NOTE_NAME_SIZE];
    // The descriptor must fit in the bytes after the name.
    var fits := valSize <= filesz - NOTE_DATA_OFFSET;
    NoteNameSlice(note);
    assert (nameSize == NOTE_NAME_SIZE && fits && tag == GO_BUILD_ID_TAG && nname == GO_NOTE_NAME)
        == MatchesExactly(order, note, GO_BUILD_ID_TAG, GO_NOTE_NAME);
    assert (nameSize == NOTE_NAME_SIZE && fits && tag == GNU_BUILD_ID_TAG && nname == GNU_NOTE_NAME)
        == MatchesExactly(order, note, GNU_BUILD_ID_TAG, GNU_NOTE_NAME);
    if nameSize == NOTE_NAME_SIZE && fits && tag == GO_BUILD_ID_TAG && nname == GO_NOTE_NAME {
      return Stop(GoFound(note[NOTE_DATA_OFFSET..NOTE_DATA_OFFSET + valSize]));
    }
    if nameSize == NOTE_NAME_SIZE && fits && tag == GNU_BUILD_ID_TAG && nname == GNU_NOTE_NAME {
      gnu := note[NOTE_DATA_OFFSET..NOTE_DATA_OFFSET + valSize];
    }
    assert gnu == GnuAfter(order, note, gnuIn);
    var notesz: Uint64 := Add32(Add32(NOTE_FIELDS_OFFSET, Align4(nameSize)), Align4(valSize));
    assert notesz == StepSize(order, note);
    if filesz <= notesz {
      return Stop(Exhausted(gnu));
    }
    // Advance past the record, then round the offset up to the segment alignment.
    var advance := AdvanceBy(off, notesz, align);
    if advance.step == 0 || advance.step > filesz {
      return Stop(Exhausted(gnu));
    }
    return Skip(advance.step, advance.off, gnu);
  }

  /**
   * The inner loop of `readELF` over the note bytes of one segment, with the
   * corrections of WalkGuarded. `filesz` and `note` shrink by the same step,
   * so `filesz == |note|` throughout.
   */
  method WalkSegment(order: ByteOrder, segment: seq<Byte>, segmentOff: Uint64, align: Uint64, gnuIn: seq<Byte>)
    returns (r: WalkResult)
    requires |segment| < UINT64_LIMIT
    ensures r == WalkGuarded(order, segment, segmentOff, align, gnuIn)
  {
    var filesz: Uint64 := |segment|;
    var off: Uint64 := segmentOff;
    var note := segment;
    var gnu := gnuIn;
    while filesz >= NOTE_DATA_OFFSET
      invariant filesz == |note|
      invariant WalkGuarded(order, note, off, align, gnu) == WalkGuarded(order, segment, segmentOff, align, gnuIn)
      decreases filesz
    {
      var s := VisitRecord(order, note, off, align, gnu);
      match s
      case Stop(result) =>
        return result;
      case Skip(notesz, next, gnu') =>
        GuardedStep(order, note, off, align, gnu, notesz, next, gnu');
        filesz, note, off, gnu := filesz - notesz, note[notesz..], next, gnu';
    }
    return Exhausted(gnu);
  }
}
