/**
 * Properties of the note walk of `readELF`: the precedence between the Go
 * and GNU notes, the corrected walk and the inputs on which the walk as
 * written panics or never ends.
 */
module ElfNoteProps {
  import opened Types
  import opened Words
  import opened ElfNote

  /**
   * A Go build-ID note at the current record ends the walk, as written and
   * corrected, with its descriptor, whatever GNU fallback was seen before.
   */
  lemma GoNoteEndsWalk(order: ByteOrder, note: seq<Byte>, off: Uint64, align: Uint64, gnu: seq<Byte>)
    requires |note| >= NOTE_DATA_OFFSET
    requires MatchesExactly(order, note, GO_BUILD_ID_TAG, GO_NOTE_NAME)
    requires |note| < UINT32_LIMIT
    ensures Walk(order, note, off, align, gnu) == GoFound(note[16..16 + DescSize(order, note)])
    ensures WalkGuarded(order, note, off, align, gnu) == GoFound(note[16..16 + DescSize(order, note)])
  {
  }

  /**
   * The incoming GNU fallback only matters when the segment has no GNU note
   * of its own: the walk finds the same Go note whatever fallback it starts
   * with, and if it replaced its fallback it replaced it by the same
   * descriptor (the last GNU note of the segment).
   */
  lemma {:induction false} WalkFallbackIndependent(order: ByteOrder, note: seq<Byte>, off: Uint64, align: Uint64,
                                                    g1: seq<Byte>, g2: seq<Byte>)
    ensures WalkGuarded(order, note, off, align, g1).GoFound? == WalkGuarded(order, note, off, align, g2).GoFound?
    ensures WalkGuarded(order, note, off, align, g1).GoFound? ==>
              WalkGuarded(order, note, off, align, g1) == WalkGuarded(order, note, off, align, g2)
    ensures WalkGuarded(order, note, off, align, g1).Exhausted? && WalkGuarded(order, note, off, align, g1).gnu != g1 ==>
              WalkGuarded(order, note, off, align, g2).gnu == WalkGuarded(order, note, off, align, g1).gnu
    ensures WalkGuarded(order, note, off, align, g2).Exhausted? && WalkGuarded(order, note, off, align, g2).gnu != g2 ==>
              WalkGuarded(order, note, off, align, g1).gnu == WalkGuarded(order, note, off, align, g2).gnu
    decreases |note|
  {
    if |note| >= NOTE_DATA_OFFSET && !MatchesExactly(order, note, GO_BUILD_ID_TAG, GO_NOTE_NAME) {
      var h1, h2 := GnuAfter(order, note, g1), GnuAfter(order, note, g2);
      var w1, w2 := GuardedAdvance(order, note, off, align, h1), GuardedAdvance(order, note, off, align, h2);
      var step := StepSize(order, note);
      if |note| > step {
        var a := AdvanceBy(off, step, align);
        if 0 < a.step <= |note| {
          GuardedStep(order, note, off, align, g1, a.step, a.off, h1);
          GuardedStep(order, note, off, align, g2, a.step, a.off, h2);
          WalkFallbackIndependent(order, note[a.step..], a.off, align, h1, h2);
        }
      }
    }
  }

  /**
   * The corrected walk agrees with the walk as written on every segment
   * shorter than 4 GiB on which the latter neither panics nor hangs.
   */
  lemma {:induction false} WalkGuardedAgrees(order: ByteOrder, note: seq<Byte>, off: Uint64, align: Uint64, gnu: seq<Byte>)
    requires |note| < UINT32_LIMIT
    requires Walk(order, note, off, align, gnu).GoFound? || Walk(order, note, off, align, gnu).Exhausted?
    ensures WalkGuarded(order, note, off, align, gnu) == Walk(order, note, off, align, gnu)
    decreases |note|
  {
    if |note| >= NOTE_DATA_OFFSET {
      var isGo := Matches(order, note, GO_BUILD_ID_TAG, GO_NOTE_NAME);
      var isGnu := Matches(order, note, GNU_BUILD_ID_TAG, GNU_NOTE_NAME);
      assert isGo && !DescWraps(order, note) <==> MatchesExactly(order, note, GO_BUILD_ID_TAG, GO_NOTE_NAME);
      assert isGnu && !DescWraps(order, note) <==> MatchesExactly(order, note, GNU_BUILD_ID_TAG, GNU_NOTE_NAME);
      if !isGo && !(isGnu && DescWraps(order, note)) {
        var gnu' := if isGnu then Descriptor(order, note) else gnu;
        assert gnu' == GnuAfter(order, note, gnu);
        var rest := WalkAdvance(order, note, off, align, gnu');
        var guarded := GuardedAdvance(order, note, off, align, gnu');
        var step := StepSize(order, note);
        if |note| > step {
          var a := AdvanceBy(off, step, align);
          if 0 < a.step <= |note| {
            WalkStep(order, note, off, align, gnu, a.step, a.off, gnu');
            GuardedStep(order, note, off, align, gnu, a.step, a.off, gnu');
            WalkGuardedAgrees(order, note[a.step..], a.off, align, gnu');
          }
        }
      }
    }
  }

  /**
   * A 16-byte segment whose only record has namesz 0xFFFFFFF4: the uint32 sum
   * `12 + align4(namesz) + align4(descsz)` wraps to 0, so the loop state never
   * changes and the walk as written never ends; the corrected walk stops.
   */
  lemma ZeroStepHangs()
    ensures Walk(LittleEndian, HangingSegment(), 0, 0, []) == WalkHang
    ensures WalkGuarded(LittleEndian, HangingSegment(), 0, 0, []) == Exhausted([])
  {
    var note := HangingSegment();
    DecodeEncodeUint32(LittleEndian, 0xFFFF_FFF4, [], note[4..]);
    assert note == [] + EncodeUint32(LittleEndian, 0xFFFF_FFF4) + note[4..];
    assert NameSize(LittleEndian, note) == 0xFFFF_FFF4;
    assert DescSize(LittleEndian, note) == 0;
    assert Align4(0xFFFF_FFF4) == 0xFFFF_FFF4;
    assert StepSize(LittleEndian, note) == 0;
    assert AdvanceBy(0, 0, 0) == Advance(0, 0);
  }

  function HangingSegment(): (s: seq<Byte>)
    ensures |s| == 16
  {
    EncodeUint32(LittleEndian, 0xFFFF_FFF4) + [0, 0, 0, 0] + [0, 0, 0, 0] + [0, 0, 0, 0]
  }

  /**
   * A 20-byte segment with p_align 32 whose first record takes 16 bytes: the
   * alignment padding makes the step 32, more than the 20 bytes left, so the
   * walk as written slices out of range; the corrected walk stops.
   */
  lemma PaddingOverrunPanics()
    ensures Walk(LittleEndian, OverrunSegment(), 0, 32, []) == WalkPanic
    ensures WalkGuarded(LittleEndian, OverrunSegment(), 0, 32, []) == Exhausted([])
  {
    OverrunRecord();
  }

  /** The record of OverrunSegment is neither a Go nor a GNU note; its 16 bytes are padded to 32. */
  lemma OverrunRecord()
    ensures !Matches(LittleEndian, OverrunSegment(), GO_BUILD_ID_TAG, GO_NOTE_NAME)
    ensures !MatchesExactly(LittleEndian, OverrunSegment(), GO_BUILD_ID_TAG, GO_NOTE_NAME)
    ensures !Matches(LittleEndian, OverrunSegment(), GNU_BUILD_ID_TAG, GNU_NOTE_NAME)
    ensures !MatchesExactly(LittleEndian, OverrunSegment(), GNU_BUILD_ID_TAG, GNU_NOTE_NAME)
    ensures StepSize(LittleEndian, OverrunSegment()) == 16
    ensures AdvanceBy(0, 16, 32) == Advance(32, 32)
  {
    var note := OverrunSegment();
    assert NameSize(LittleEndian, note) == 4;
    assert DescSize(LittleEndian, note) == 0;
    assert NoteType(LittleEndian, note) == 0;
    assert Align4(4) == 4 && Align4(0) == 0;
    assert Pow2(5) == 32;
    AlignUpPow2(16, 5);
    assert AlignUp(16, 32) == 32;
  }

  function OverrunSegment(): (s: seq<Byte>)
    ensures |s| == 20
  {
    [4, 0, 0, 0] + [0, 0, 0, 0] + [0, 0, 0, 0] + [0x61, 0x62, 0x63, 0x64] + [0, 0, 0, 0]
  }

  /**
   * A Go note whose descsz is 0xFFFFFFF0: `16+valSize` wraps to 0 in uint32, so
   * the length test passes and `note[16:0]` panics; the corrected walk does
   * not take the record for a Go note.
   */
  lemma DescSizeWrapPanics()
    ensures Walk(LittleEndian, WrappingGoNote(), 0, 0, []) == WalkPanic
    ensures WalkGuarded(LittleEndian, WrappingGoNote(), 0, 0, []) == Exhausted([])
  {
    var note := WrappingGoNote();
    DecodeEncodeUint32(LittleEndian, 0xFFFF_FFF0, note[..4], note[8..]);
    assert note == note[..4] + EncodeUint32(LittleEndian, 0xFFFF_FFF0) + note[8..];
    assert NameSize(LittleEndian, note) == 4;
    assert DescSize(LittleEndian, note) == 0xFFFF_FFF0;
    assert NoteType(LittleEndian, note) == 4;
    assert NoteName(note) == GO_NOTE_NAME;
    assert Align4(4) == 4 && Align4(0xFFFF_FFF0) == 0xFFFF_FFF0;
    assert StepSize(LittleEndian, note) == 0;
    assert AdvanceBy(0, 0, 0) == Advance(0, 0);
  }

  function WrappingGoNote(): (s: seq<Byte>)
    ensures |s| == 16
  {
    [4, 0, 0, 0] + EncodeUint32(LittleEndian, 0xFFFF_FFF0) + [4, 0, 0, 0] + GO_NOTE_NAME
  }

  /**
   * A segment of 2^32 + 8 bytes holding a Go note with descsz 0xFFFFFFE0 and
   * then 24 zero bytes. The note fits, but the walk as written compares
   * `16+descsz` with `uint32(len(note))`, which is 8, so it steps over the Go
   * note, then over one empty record, and finds no build ID; the corrected
   * walk returns the note's descriptor.
   */
  lemma TruncatedLengthHidesGoNote()
    ensures Walk(LittleEndian, HugeSegment(), 0, 0, []) == Exhausted([])
    ensures WalkGuarded(LittleEndian, HugeSegment(), 0, 0, []) == GoFound(Zeros(0xFFFF_FFE0))
  {
    var note := HugeSegment();
    var d := 0xFFFF_FFE0;
    DecodeEncodeUint32(LittleEndian, d, note[..4], note[8..]);
    assert note == note[..4] + EncodeUint32(LittleEndian, d) + note[8..];
    assert NameSize(LittleEndian, note) == 4;
    assert DescSize(LittleEndian, note) == d;
    assert NoteType(LittleEndian, note) == 4;
    assert NoteName(note) == GO_NOTE_NAME;
    assert Trunc32(|note|) == 8;
    assert Align4(4) == 4 && Align4(d) == d;
    var step := StepSize(LittleEndian, note);
    assert step == 16 + d;
    assert AdvanceBy(0, step, 0) == Advance(step, step);
    WalkStep(LittleEndian, note, 0, 0, [], step, step, []);
    var tail := note[step..];
    assert tail == Zeros(24);
    assert NameSize(LittleEndian, tail) == 0 && DescSize(LittleEndian, tail) == 0;
    assert NoteType(LittleEndian, tail) == 0;
    assert StepSize(LittleEndian, tail) == 12;
    assert AdvanceBy(step, 12, 0) == Advance(12, step + 12);
    WalkStep(LittleEndian, tail, step, 0, [], 12, step + 12, []);
    assert tail[12..] == Zeros(12);
    assert note[16..16 + d] == Zeros(d);
  }

  function HugeSegment(): (s: seq<Byte>)
    ensures |s| == UINT32_LIMIT + 8
  {
    [4, 0, 0, 0] + EncodeUint32(LittleEndian, 0xFFFF_FFE0) + [4, 0, 0, 0] + GO_NOTE_NAME
      + Zeros(0xFFFF_FFE0) + Zeros(24)
  }
}
