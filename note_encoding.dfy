/**
 * Building note segments the way a linker lays them out (section "Note
 * Section" of the System V ABI): a 12-byte header, then the name and the
 * descriptor, each padded with zeros to a multiple of 4 bytes. Walking such a
 * segment finds the first Go build-ID note, or else the last GNU one.
 */
module NoteEncoding {
  import opened Types
  import opened Words
  import opened ElfNote
  import ElfNoteProps

  /** A note record: its name, its descriptor and its type. */
  datatype Note = Note(name: seq<Byte>, desc: seq<Byte>, kind: Uint32)

  /** Name and descriptor sizes this module encodes (far below the uint32 limit). */
  const MAX_FIELD_SIZE: int := 0x1000_0000

  predicate Encodable(n: Note)
  {
    |n.name| < MAX_FIELD_SIZE && |n.desc| < MAX_FIELD_SIZE
  }

  /** `b` followed by zeros up to the next multiple of 4. */
  function Padded(b: seq<Byte>): (p: seq<Byte>)
    requires |b| < MAX_FIELD_SIZE
    ensures |p| == Align4(|b|) && |b| <= |p| < |b| + 4
    ensures p[..|b|] == b
  {
    b + Zeros(Align4(|b|) - |b|)
  }

  /** The 12-byte record header: namesz, descsz and type. */
  function EncodeHeader(order: ByteOrder, n: Note): (h: seq<Byte>)
    requires Encodable(n)
    ensures |h| == NOTE_FIELDS_OFFSET
  {
    EncodeUint32(order, |n.name|) + EncodeUint32(order, |n.desc|) + EncodeUint32(order, n.kind)
  }

  /** The encoded length of a record: the header and the two padded fields. */
  function RecordLength(n: Note): (len: nat)
    requires Encodable(n)
    ensures len == 4 * (len / 4) && NOTE_FIELDS_OFFSET + |n.name| + |n.desc| <= len < UINT32_LIMIT
  {
    SumMod4(NOTE_FIELDS_OFFSET, Align4(|n.name|));
    SumMod4(NOTE_FIELDS_OFFSET + Align4(|n.name|), Align4(|n.desc|));
    NOTE_FIELDS_OFFSET + Align4(|n.name|) + Align4(|n.desc|)
  }

  function EncodeNote(order: ByteOrder, n: Note): (s: seq<Byte>)
    requires Encodable(n)
    ensures |s| == RecordLength(n)
  {
    EncodeHeader(order, n) + (Padded(n.name) + Padded(n.desc))
  }

  /** How far the record `n` at file offset `off` is from the next one: the record and the padding to `align`. */
  function Stride(n: Note, off: nat, align: nat): (d: nat)
    requires Encodable(n)
    ensures RecordLength(n) <= d
    ensures align != 0 ==> d < RecordLength(n) + align
    ensures align == 0 ==> d == RecordLength(n)
  {
    RecordLength(n) + Pad(off + RecordLength(n), align)
  }

  /**
   * The segment for the notes `ns` at file offset `off`: the records one
   * after the other, each but the last followed by zeros up to the next
   * multiple of the segment alignment `align` (none when it is 0).
   */
  function EncodeNotes(order: ByteOrder, ns: seq<Note>, off: nat, align: nat): (s: seq<Byte>)
    requires forall i :: 0 <= i < |ns| ==> Encodable(ns[i])
    ensures |s| == 0 <==> ns == []
    decreases |ns|
  {
    if ns == [] then []
    else if |ns| == 1 then EncodeNote(order, ns[0])
    else
      var d := Stride(ns[0], off, align);
      EncodeNote(order, ns[0]) + Zeros(d - RecordLength(ns[0])) + EncodeNotes(order, ns[1..], off + d, align)
  }

  lemma SumMod4(a: int, b: int)
    requires a % 4 == 0 && b % 4 == 0
    ensures (a + b) % 4 == 0
  {
    assert a == 4 * (a / 4) && b == 4 * (b / 4);
    assert a + b == 4 * (a / 4 + b / 4);
  }

  predicate IsGoNote(n: Note)
  {
    n.name == GO_NOTE_NAME && n.kind == GO_BUILD_ID_TAG
  }

  predicate IsGnuNote(n: Note)
  {
    n.name == GNU_NOTE_NAME && n.kind == GNU_BUILD_ID_TAG
  }

  /** The GNU fallback after the record `n`: its descriptor if it is a GNU build-ID note. */
  function Fallback(n: Note, gnu: seq<Byte>): seq<Byte>
  {
    if IsGnuNote(n) then n.desc else gnu
  }

  /**
   * What a segment holding the notes `ns` should yield: the descriptor of the
   * first Go note; failing that, the fallback `gnu` replaced by each GNU note
   * in turn.
   */
  function Resolve(ns: seq<Note>, gnu: seq<Byte>): (r: WalkResult)
    ensures r.GoFound? || r.Exhausted?
  {
    if ns == [] then Exhausted(gnu)
    else if IsGoNote(ns[0]) then GoFound(ns[0].desc)
    else Resolve(ns[1..], Fallback(ns[0], gnu))
  }

  /** The header of an encoded record decodes to the record's sizes and type. */
  lemma EncodedFields(order: ByteOrder, n: Note, tail: seq<Byte>)
    requires Encodable(n)
    requires |EncodeHeader(order, n) + tail| >= NOTE_DATA_OFFSET
    ensures NameSize(order, EncodeHeader(order, n) + tail) == |n.name|
    ensures DescSize(order, EncodeHeader(order, n) + tail) == |n.desc|
    ensures NoteType(order, EncodeHeader(order, n) + tail) == n.kind
  {
    var e0 := EncodeUint32(order, |n.name|);
    var e1 := EncodeUint32(order, |n.desc|);
    var e2 := EncodeUint32(order, n.kind);
    var s := EncodeHeader(order, n) + tail;
    assert s == [] + e0 + (e1 + e2 + tail);
    assert s == e0 + e1 + (e2 + tail);
    assert s == e0 + e1 + e2 + tail;
    DecodeEncodeUint32(order, |n.name|, [], e1 + e2 + tail);
    DecodeEncodeUint32(order, |n.desc|, e0, e2 + tail);
    DecodeEncodeUint32(order, n.kind, e0 + e1, tail);
  }

  /** With a 4-byte name, the name and the descriptor sit where the walk reads them. */
  lemma EncodedNameAndDesc(order: ByteOrder, n: Note, tail: seq<Byte>)
    requires Encodable(n) && |n.name| == NOTE_NAME_SIZE
    ensures |EncodeNote(order, n) + tail| >= NOTE_DATA_OFFSET + |n.desc|
    ensures NoteName(EncodeNote(order, n) + tail) == n.name
    ensures (EncodeNote(order, n) + tail)[NOTE_DATA_OFFSET..NOTE_DATA_OFFSET + |n.desc|] == n.desc
  {
    var pn, pd := Padded(n.name), Padded(n.desc);
    var s := EncodeNote(order, n) + tail;
    assert pn == n.name;
    assert s == EncodeHeader(order, n) + (pn + (pd + tail));
    assert s[12..] == pn + (pd + tail);
    assert s[12..16] == pn;
    assert s[16..] == pd + tail;
    assert s[NOTE_DATA_OFFSET..NOTE_DATA_OFFSET + |n.desc|] == pd[..|n.desc|];
  }

  /**
   * The layout the walk relies on, stated on the bytes `s` that start with a
   * record for `n`: the header fields hold its sizes and type and, for a
   * 4-byte name, the name and descriptor sit where the walk reads them.
   */
  predicate RecordAt(order: ByteOrder, s: seq<Byte>, n: Note)
    requires Encodable(n)
  {
    && |s| >= RecordLength(n)
    && (|s| >= NOTE_DATA_OFFSET ==>
          && NameSize(order, s) == |n.name|
          && DescSize(order, s) == |n.desc|
          && NoteType(order, s) == n.kind
          && (|n.name| == NOTE_NAME_SIZE ==>
                NoteName(s) == n.name && s[NOTE_DATA_OFFSET..NOTE_DATA_OFFSET + |n.desc|] == n.desc))
  }

  /**
   * `s`, at file offset `off`, is laid out as the records `ns`: each record
   * starts one stride after the previous one, and the last one ends the
   * segment.
   */
  predicate Laid(order: ByteOrder, s: seq<Byte>, ns: seq<Note>, off: nat, align: nat)
    requires forall i :: 0 <= i < |ns| ==> Encodable(ns[i])
    decreases |ns|
  {
    if ns == [] then s == []
    else if |ns| == 1 then RecordAt(order, s, ns[0]) && |s| == RecordLength(ns[0])
    else
      var d := Stride(ns[0], off, align);
      && RecordAt(order, s, ns[0])
      && |s| >= d
      && Laid(order, s[d..], ns[1..], off + d, align)
  }

  /** An encoded record has the layout the walk relies on, whatever follows it. */
  lemma EncodedRecordAt(order: ByteOrder, n: Note, rest: seq<Byte>)
    requires Encodable(n)
    ensures RecordAt(order, EncodeNote(order, n) + rest, n)
    ensures (EncodeNote(order, n) + rest)[RecordLength(n)..] == rest
  {
    var s := EncodeNote(order, n) + rest;
    if |s| >= NOTE_DATA_OFFSET {
      assert s == EncodeHeader(order, n) + ((Padded(n.name) + Padded(n.desc)) + rest);
      EncodedFields(order, n, (Padded(n.name) + Padded(n.desc)) + rest);
      if |n.name| == NOTE_NAME_SIZE {
        EncodedNameAndDesc(order, n, rest);
      }
    }
  }

  /** A layout is empty exactly when it holds no records; otherwise it holds at least a header. */
  lemma LaidNonEmpty(order: ByteOrder, s: seq<Byte>, ns: seq<Note>, off: nat, align: nat)
    requires forall i :: 0 <= i < |ns| ==> Encodable(ns[i])
    requires Laid(order, s, ns, off, align)
    ensures s == [] <==> ns == []
    ensures ns != [] ==> |s| >= NOTE_FIELDS_OFFSET
  {
  }

  /** A layout of several records starts with the first record, and one stride on, with a header at least, lays out the others. */
  lemma LaidStep(order: ByteOrder, s: seq<Byte>, ns: seq<Note>, off: nat, align: nat)
    requires forall i :: 0 <= i < |ns| ==> Encodable(ns[i])
    requires |ns| > 1 && Laid(order, s, ns, off, align)
    ensures RecordAt(order, s, ns[0])
    ensures Stride(ns[0], off, align) + NOTE_FIELDS_OFFSET <= |s|
    ensures Laid(order, s[Stride(ns[0], off, align)..], ns[1..], off + Stride(ns[0], off, align), align)
  {
    var d := Stride(ns[0], off, align);
    LaidNonEmpty(order, s[d..], ns[1..], off + d, align);
  }

  /** A record, then the layout of the other records one stride on, is the layout of them all. */
  lemma LaidCons(order: ByteOrder, s: seq<Byte>, ns: seq<Note>, off: nat, align: nat)
    requires forall i :: 0 <= i < |ns| ==> Encodable(ns[i])
    requires |ns| > 1 && RecordAt(order, s, ns[0]) && |s| >= Stride(ns[0], off, align)
    requires Laid(order, s[Stride(ns[0], off, align)..], ns[1..], off + Stride(ns[0], off, align), align)
    ensures Laid(order, s, ns, off, align)
  {
  }

  /** An encoded record, its padding, then the layout of the other records, is the layout of them all. */
  lemma LaidPrepend(order: ByteOrder, gap: seq<Byte>, tail: seq<Byte>, ns: seq<Note>, off: nat, align: nat)
    requires forall i :: 0 <= i < |ns| ==> Encodable(ns[i])
    requires |ns| > 1 && |gap| == Stride(ns[0], off, align) - RecordLength(ns[0])
    requires Laid(order, tail, ns[1..], off + Stride(ns[0], off, align), align)
    ensures Laid(order, EncodeNote(order, ns[0]) + gap + tail, ns, off, align)
  {
    var s := EncodeNote(order, ns[0]) + gap + tail;
    assert s == EncodeNote(order, ns[0]) + (gap + tail);
    EncodedRecordAt(order, ns[0], gap + tail);
    assert s[Stride(ns[0], off, align)..] == tail;
    LaidCons(order, s, ns, off, align);
  }

  /** Encoding a list of notes at file offset `off` produces their layout. */
  lemma {:induction false} EncodeNotesLaid(order: ByteOrder, ns: seq<Note>, off: nat, align: nat)
    requires forall i :: 0 <= i < |ns| ==> Encodable(ns[i])
    ensures Laid(order, EncodeNotes(order, ns, off, align), ns, off, align)
    decreases |ns|
  {
    if |ns| == 1 {
      EncodedRecordAt(order, ns[0], []);
      assert EncodeNote(order, ns[0]) + [] == EncodeNotes(order, ns, off, align);
    } else if |ns| > 1 {
      var d := Stride(ns[0], off, align);
      EncodeNotesLaid(order, ns[1..], off + d, align);
      LaidPrepend(order, Zeros(d - RecordLength(ns[0])), EncodeNotes(order, ns[1..], off + d, align), ns, off, align);
    }
  }

  /** What the walk's record tests see at a record laid out for `n`. */
  lemma RecordAtReads(order: ByteOrder, s: seq<Byte>, n: Note)
    requires Encodable(n) && RecordAt(order, s, n)
    requires NOTE_DATA_OFFSET <= |s| < UINT32_LIMIT
    ensures Matches(order, s, GO_BUILD_ID_TAG, GO_NOTE_NAME) <==> IsGoNote(n)
    ensures Matches(order, s, GNU_BUILD_ID_TAG, GNU_NOTE_NAME) <==> IsGnuNote(n)
    ensures !DescWraps(order, s)
    ensures IsGoNote(n) || IsGnuNote(n) ==> Descriptor(order, s) == n.desc
    ensures StepSize(order, s) == RecordLength(n)
  {
  }

  /** At a record laid out for `n`, the walk stops at a Go note, and after the last record with the updated fallback. */
  lemma WalkStopsAt(order: ByteOrder, s: seq<Byte>, n: Note, off: Uint64, align: Uint64, gnu: seq<Byte>)
    requires Encodable(n) && RecordAt(order, s, n) && |s| < UINT32_LIMIT
    ensures IsGoNote(n) ==> Walk(order, s, off, align, gnu) == GoFound(n.desc)
    ensures !IsGoNote(n) && |s| == RecordLength(n) ==>
              Walk(order, s, off, align, gnu) == Exhausted(Fallback(n, gnu))
  {
    if |s| < NOTE_DATA_OFFSET {
      assert |n.name| != NOTE_NAME_SIZE;
    } else {
      RecordAtReads(order, s, n);
      if !IsGoNote(n) && |s| == RecordLength(n) {
        assert WalkAdvance(order, s, off, align, Fallback(n, gnu)) == Exhausted(Fallback(n, gnu));
      }
    }
  }

  /**
   * At a record laid out for a note other than Go's, with another record
   * after it, the walk's tests fail and it steps one stride on: the record
   * and the padding to the segment alignment.
   */
  lemma RecordAtSkips(order: ByteOrder, s: seq<Byte>, n: Note, off: Uint64, align: Uint64, gnu: seq<Byte>)
    requires Encodable(n) && !IsGoNote(n) && RecordAt(order, s, n)
    requires Stride(n, off, align) + NOTE_FIELDS_OFFSET <= |s| < UINT32_LIMIT
    requires off + |s| + align < UINT64_LIMIT
    requires align == 0 || PowerOfTwo(align)
    ensures StepsOver(order, s, off, align, gnu, Stride(n, off, align), off + Stride(n, off, align), Fallback(n, gnu))
  {
    RecordAtReads(order, s, n);
    AdvancePadded(off, RecordLength(n), align);
  }

  /** Past a record laid out for a note other than Go's, the walk moves on to the next record with the updated fallback. */
  lemma WalkOverRecordAt(order: ByteOrder, s: seq<Byte>, n: Note, off: Uint64, align: Uint64, gnu: seq<Byte>)
    requires Encodable(n) && !IsGoNote(n) && RecordAt(order, s, n)
    requires Stride(n, off, align) + NOTE_FIELDS_OFFSET <= |s| < UINT32_LIMIT
    requires off + |s| + align < UINT64_LIMIT
    requires align == 0 || PowerOfTwo(align)
    ensures Walk(order, s, off, align, gnu)
              == Walk(order, s[Stride(n, off, align)..], off + Stride(n, off, align), align, Fallback(n, gnu))
  {
    var d := Stride(n, off, align);
    RecordAtSkips(order, s, n, off, align, gnu);
    WalkStep(order, s, off, align, gnu, d, off + d, Fallback(n, gnu));
  }

  /**
   * The walk of a segment laid out at file offset `off`, for no alignment or
   * any power-of-two alignment, gives what Resolve prescribes.
   */
  lemma {:induction false} WalkLaid(order: ByteOrder, s: seq<Byte>, ns: seq<Note>, off: Uint64, align: Uint64, gnu: seq<Byte>)
    requires forall i :: 0 <= i < |ns| ==> Encodable(ns[i])
    requires Laid(order, s, ns, off, align) && |s| < UINT32_LIMIT
    requires off + |s| + align < UINT64_LIMIT
    requires align == 0 || PowerOfTwo(align)
    ensures Walk(order, s, off, align, gnu) == Resolve(ns, gnu)
    decreases |ns|
  {
    if ns == [] {
    } else if IsGoNote(ns[0]) || |ns| == 1 {
      // The walk ends at the first record.
      var n := ns[0];
      WalkStopsAt(order, s, n, off, align, gnu);
      if !IsGoNote(n) {
        assert Resolve(ns, gnu) == Resolve([], Fallback(n, gnu));
      }
    } else {
      var n := ns[0];
      var d := Stride(n, off, align);
      var rest := s[d..];
      assert Resolve(ns, gnu) == Resolve(ns[1..], Fallback(n, gnu));
      LaidStep(order, s, ns, off, align);
      WalkOverRecordAt(order, s, n, off, align, gnu);
      WalkLaid(order, rest, ns[1..], off + d, align, Fallback(n, gnu));
    }
  }

  /**
   * Round trip: walking a segment built from encodable notes at file offset
   * `off`, padded to a segment alignment of 0 or a power of two, gives exactly
   * what Resolve prescribes: the first Go note wins, else the last GNU note.
   * The walk as written and the corrected walk agree on such segments.
   */
  lemma WalkEncodedNotes(order: ByteOrder, ns: seq<Note>, off: Uint64, align: Uint64, gnu: seq<Byte>)
    requires forall i :: 0 <= i < |ns| ==> Encodable(ns[i])
    requires |EncodeNotes(order, ns, off, align)| < UINT32_LIMIT
    requires off + |EncodeNotes(order, ns, off, align)| + align < UINT64_LIMIT
    requires align == 0 || PowerOfTwo(align)
    ensures Walk(order, EncodeNotes(order, ns, off, align), off, align, gnu) == Resolve(ns, gnu)
    ensures WalkGuarded(order, EncodeNotes(order, ns, off, align), off, align, gnu) == Resolve(ns, gnu)
  {
    var s := EncodeNotes(order, ns, off, align);
    EncodeNotesLaid(order, ns, off, align);
    WalkLaid(order, s, ns, off, align, gnu);
    ElfNoteProps.WalkGuardedAgrees(order, s, off, align, gnu);
  }
}
