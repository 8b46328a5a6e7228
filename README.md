# Go binary parser and utilities of go-dep-parser, in Dafny

This project models two parts of go-dep-parser.

The first is the Go binary parser (`pkg/golang/binary/parse.go`). `Parse`
reads the module list that the Go toolchain embeds in an executable and
turns each dependency into a library record. When the list has any
dependencies, `Parse` also asks `getBuildID` for the executable's build ID.

`getBuildID` works in three steps:

1. It sniffs the first 8 bytes. ar archives and AIX big archives are refused.
2. It reads a 32 KiB header buffer. A short read is not an error.
3. For an ELF file it calls `readELF`.

`readELF` works as follows:

- It refuses 32-bit ELF files.
- For 64-bit files, it clears the section-header fields of the header.
- It looks at every PT_NOTE program header with room for at least 16 bytes. The bytes of that whole segment are sliced from the header buffer when they lie inside it, and read again from the file otherwise. A failed seek or read ends `readELF` with that error.
- It walks the note records of each such segment.
- It returns the first Go build-ID note (`"Go\0\0"`, type 4). Failing that, it returns the last GNU build-ID note (`"GNU\0"`, type 3). Failing that, it returns the empty build ID.

Notes are laid out as in section "Note Section" of the System V ABI: a
12-byte header, then the name and the descriptor, each padded to 4 bytes.
The walk steps over a record by `12 + align4(namesz) + align4(descsz)` bytes,
where 12 is the size of the record header (parse.go:28-29), then pads the step
to the segment's `p_align`.

The second part is the helpers of `pkg/utils/utils.go`:

- the retry test on HTTP status codes;
- `PackageID`;
- order-preserving de-duplication of strings;
- merging library records that share a `name@version` identifier;
- overriding one string map with another in place.

The note walk keeps Go's fixed-width arithmetic, written out explicitly:

- uint32 sums of the record sizes;
- uint64 offsets;
- `&^` rounding.

Run-time failures of the Go code are outcomes of the model rather than preconditions. In
the walk exactly as written (`ElfNote.Walk`):

- A slice out of range is `WalkPanic`.
- A walk step of 0 never changes the loop state, so the Go loop never ends. The model gives `WalkHang`.

Both come from defects of the walk listed under "## Findings". A further
finding there is a Go note that the walk as written misses in a segment of 4 GiB
or more. The loop method `ElfNote.WalkSegment`, and with it the whole of
`readELF`, `getBuildID` and `Parse` in this model, follow the corrected walk
`ElfNote.WalkGuarded`. On segments below 4 GiB, that walk agrees with the walk as
written wherever the latter neither panics nor hangs. The one panic left in the
call chain is a segment end `Off+Filesz` that wraps around (`Panicked`).

The modules are:

| module | file | contents |
|---|---|---|
| `Wrappers`, `Types` | wrappers.dfy, types.dfy | Option/Result; bytes, uint32/uint64, `Library`, `Location` |
| `Words` | words.dfy | byte-order decoding, wrapping uint32/uint64 arithmetic, `&^` and the two roundings built from it |
| `ElfNote` | elf_note.dfy | the note walk of one segment: `Walk` exactly as written, the corrected walk `WalkGuarded`, and the loop `WalkSegment` proved against the corrected walk |
| `ElfNoteProps` | elf_note_props.dfy | Go/GNU precedence, the agreement of the corrected walk, the four failing inputs |
| `NoteEncoding` | note_encoding.dfy | a note-segment encoder and the round trip: walking encoded notes resolves them |
| `BuildId` | build_id.dfy | `getBuildID` and `readELF` as specification functions and as methods over the 32 KiB `array` buffer |
| `BuildIdProps` | build_id_props.dfy | which headers are looked at, the precedence across segments, where segment bytes come from, header preparation |
| `GoBinary` | go_binary.dfy | `convertError` and `Parse` |
| `Utils` | utils.dfy | `pkg/utils` |

## Model

| member | source | states |
|---|---|---|
| Words.DecodeUint32 | pkg/golang/binary/parse.go:157-159 | `order.Uint32`: the four bytes from an index as a word in the file's byte order; `Words.DecodeEncodeUint32` proves it inverts the encoder |
| Words.DecodeEncodeUint32 | pkg/golang/binary/parse.go:157-159 | reading a uint32 field in the file's byte order gives back the word that was stored there, whatever bytes surround it |
| Words.Add32 | pkg/golang/binary/parse.go:161 | uint32 addition: the sum, less 2^32 when it overflows |
| Words.Add64 | pkg/golang/binary/parse.go:175 | uint64 addition: the sum, less 2^64 when it overflows |
| Words.Sub64 | pkg/golang/binary/parse.go:179 | uint64 subtraction: the difference, plus 2^64 when it is negative |
| Words.Trunc32 | pkg/golang/binary/parse.go:161 | `uint32(len(note))` is the length modulo 2^32: it differs from the length by a multiple of 2^32, is never larger, and equals it below 2^32 |
| Words.AndNot | pkg/golang/binary/parse.go:169-170 | `x &^ y` never exceeds `x`; its bits are stated by `Words.AndNotBit` |
| Words.AndNotBit | pkg/golang/binary/parse.go:169-170 | bit k of `x &^ y` is set exactly when bit k of `x` is set and bit k of `y` is clear |
| Words.AndNotLowMask | pkg/golang/binary/parse.go:178 | clearing the low k bits rounds down to a multiple of 2^k |
| Words.Align4 | pkg/golang/binary/parse.go:169-170 | `(n+3) &^ 3` in uint32 is a multiple of 4; it is n rounded up by less than 4, except that it wraps to 0 when n+3 overflows |
| Words.AlignUp | pkg/golang/binary/parse.go:178 | `(off + align - 1) &^ (align - 1)` in uint64; for a power of two it rounds up, by `Words.AlignUpPow2` and `Words.AlignUpPad` |
| Words.AlignUpPow2 | pkg/golang/binary/parse.go:178 | for a power-of-two alignment and no overflow, the aligned offset is a multiple of the alignment, at most alignment-1 past the offset, and equal to an offset that is already aligned |
| Words.Pad | pkg/golang/binary/parse.go:176-181 | the padding after an offset: none without an alignment, otherwise less than the alignment |
| Words.PadAligns | pkg/golang/binary/parse.go:178 | the padding brings the offset to a multiple of the alignment |
| Words.PadUnique | pkg/golang/binary/parse.go:178 | it is the only amount below the alignment that does |
| Words.AlignUpPad | pkg/golang/binary/parse.go:178 | for a power-of-two alignment and no overflow, the rounded offset is the offset plus the padding |
| ElfNote.NameSize | pkg/golang/binary/parse.go:157 | namesz, the first word of the record; `NoteEncoding.EncodedFields` proves it reads back the encoded value |
| ElfNote.DescSize | pkg/golang/binary/parse.go:158 | descsz, the second word; read back by `NoteEncoding.EncodedFields` |
| ElfNote.NoteType | pkg/golang/binary/parse.go:159 | the type, the third word; read back by `NoteEncoding.EncodedFields` |
| ElfNote.NoteName | pkg/golang/binary/parse.go:160 | the four name bytes; `ElfNote.NoteNameSlice` states that they are `note[12:16]` |
| ElfNote.NoteNameSlice | pkg/golang/binary/parse.go:160 | the name the walk compares is bytes 12 to 15 of the record |
| ElfNote.Descriptor | pkg/golang/binary/parse.go:163 | the descriptor slice is descsz bytes long |
| ElfNote.Matches | pkg/golang/binary/parse.go:161-167 | the record test as written: a 4-byte name, `16+descsz <= uint32(len(note))` in uint32, the type and the name; `ElfNoteProps.DescSizeWrapPanics` shows it accepting a wrapping descriptor and `ElfNoteProps.TruncatedLengthHidesGoNote` rejecting a fitting one |
| ElfNote.StepSize | pkg/golang/binary/parse.go:169-171 | `12 + align4(namesz) + align4(descsz)` summed in uint32; its wrap to 0 is `ElfNoteProps.ZeroStepHangs`, its value on encoded records `NoteEncoding.RecordAtReads` |
| ElfNote.AdvanceBy | pkg/golang/binary/parse.go:175-181 | the step and offset after a record, padded to `p_align` in uint64; `ElfNote.AdvancePadded` states its value |
| ElfNote.AdvancePadded | pkg/golang/binary/parse.go:175-181 | with no alignment or a power-of-two `p_align`, and no overflow, the step is the record size plus the padding to the next multiple of the alignment, and the offset moves by exactly that step |
| ElfNote.Walk | pkg/golang/binary/parse.go:154-184 | the walk as written, run while a header and a name fit; its properties are `ElfNote.WalkStep`, `ElfNoteProps.GoNoteEndsWalk`, `ElfNoteProps.WalkGuardedAgrees`, `NoteEncoding.WalkEncodedNotes` and the lemmas under "## Findings" |
| ElfNote.WalkRecord | pkg/golang/binary/parse.go:157-168 | the Go and GNU tests of one record as written; a descriptor that wraps is `WalkPanic` |
| ElfNote.WalkAdvance | pkg/golang/binary/parse.go:169-183 | the step as written: the walk ends when the step reaches the bytes left, panics when the padded step passes them and hangs when it is 0 |
| ElfNote.WalkStep | pkg/golang/binary/parse.go:156-184 | a record that is not a Go note and does not make the GNU test panic moves the walk on by the step, to the next offset, with the fallback replaced by a GNU descriptor |
| ElfNote.DescWraps | pkg/golang/binary/parse.go:161 | `16+descsz` passes 2^32, so that the uint32 sum wraps; `ElfNote.ExactTest` relates it to the full-width test |
| ElfNote.MatchesExactly | pkg/golang/binary/parse.go:161-167 | the record test of the corrected walk, with `16+descsz` compared with the bytes left at full width; `ElfNote.ExactTest` relates it to the test as written |
| ElfNote.ExactTest | pkg/golang/binary/parse.go:161-167 | below 4 GiB, the test as written passes on a descriptor that does not wrap exactly when the full-width test passes, and the full-width test rejects a wrapping descriptor |
| ElfNote.GnuAfter | pkg/golang/binary/parse.go:165-167 | the corrected GNU overwrite: the fallback becomes the descriptor of a GNU note that passes the full-width test; used by `ElfNote.GuardedStep` |
| ElfNote.GuardedRecord | pkg/golang/binary/parse.go:161-168 | the corrected record tests, which only find a Go note or move on; their agreement with the tests as written is `ElfNoteProps.WalkGuardedAgrees` |
| ElfNote.GuardedAdvance | pkg/golang/binary/parse.go:169-183 | the corrected step: a step of 0 or past the end of the segment ends the walk; the correction of `ElfNoteProps.ZeroStepHangs` and `ElfNoteProps.PaddingOverrunPanics` |
| ElfNote.WalkGuarded | pkg/golang/binary/parse.go:156-184 | the corrected walk never panics and never hangs: it finds a Go note or runs out of records |
| ElfNote.GuardedStep | pkg/golang/binary/parse.go:156-184 | in the corrected walk, a record that is not a Go note moves the walk on by the step, to the next offset, with the fallback replaced by a GNU descriptor |
| ElfNote.VisitRecord | pkg/golang/binary/parse.go:157-183 | one loop body, corrected: a stop is exactly the corrected walk's verdict on this record (Go note, or end of the segment); a skip is a valid step of that walk |
| ElfNote.WalkSegment | pkg/golang/binary/parse.go:154-184 | the inner loop over one segment ends exactly as the corrected walk `WalkGuarded` does |
| ElfNoteProps.GoNoteEndsWalk | pkg/golang/binary/parse.go:161-163 | a Go note at the current record ends both walks with its descriptor, whatever fallback came before |
| ElfNoteProps.WalkFallbackIndependent | pkg/golang/binary/parse.go:165-167 | the incoming GNU fallback only survives when the segment has no GNU note: the corrected walk finds the same Go note from any fallback, and a replaced fallback is the same descriptor |
| ElfNoteProps.WalkGuardedAgrees | pkg/golang/binary/parse.go:156-184 | on segments below 4 GiB where the walk as written neither panics nor hangs, the corrected walk gives the same result |
| ElfNoteProps.ZeroStepHangs | pkg/golang/binary/parse.go:169-174 | namesz 0xFFFFFFF4 makes the uint32 step wrap to 0, so the walk as written never ends; the corrected walk stops |
| ElfNoteProps.PaddingOverrunPanics | pkg/golang/binary/parse.go:176-183 | padding to `p_align` 32 takes the step past the 20 bytes left, so the slice as written panics; the corrected walk stops |
| ElfNoteProps.OverrunRecord | pkg/golang/binary/parse.go:169-181 | the record of that segment is neither note kind, is 16 bytes long, and padding brings its step to 32 |
| ElfNoteProps.DescSizeWrapPanics | pkg/golang/binary/parse.go:161-163 | descsz 0xFFFFFFF0 makes `16+descsz` wrap to 0, so a Go note passes the length test and the descriptor slice panics; the corrected walk rejects the record |
| ElfNoteProps.TruncatedLengthHidesGoNote | pkg/golang/binary/parse.go:161-163 | in a segment of 2^32+8 bytes, the walk as written steps over a Go note that fits and finds no build ID; the corrected walk returns its descriptor |
| NoteEncoding.Padded | pkg/golang/binary/parse.go:169-170 | a padded field keeps its bytes and has the length the walk rounds to |
| NoteEncoding.EncodeHeader | pkg/golang/binary/parse.go:157-159 | a record header is the 12 bytes the walk decodes |
| NoteEncoding.RecordLength | pkg/golang/binary/parse.go:171 | an encoded record is a multiple of 4 bytes long, holds header, name and descriptor, and its length fits in uint32 |
| NoteEncoding.EncodeNote | pkg/golang/binary/parse.go:171 | an encoded record is exactly its record length |
| NoteEncoding.Stride | pkg/golang/binary/parse.go:175-181 | the distance from a record to the next is its length plus less than the alignment, and exactly its length without alignment |
| NoteEncoding.EncodeNotes | pkg/golang/binary/parse.go:156 | records padded to the segment alignment relative to the segment's file offset; a segment is empty exactly when it holds no notes |
| NoteEncoding.Resolve | pkg/golang/binary/parse.go:161-167 | the intended result for a list of notes is always a Go descriptor or a GNU fallback |
| NoteEncoding.EncodedFields | pkg/golang/binary/parse.go:157-159 | the walk reads back the encoded name size, descriptor size and type |
| NoteEncoding.EncodedNameAndDesc | pkg/golang/binary/parse.go:160-163 | the walk reads back the encoded 4-byte name and descriptor |
| NoteEncoding.EncodedRecordAt | pkg/golang/binary/parse.go:156-171 | an encoded record followed by anything has the layout the walk relies on, and the rest starts at the record length |
| NoteEncoding.LaidNonEmpty | pkg/golang/binary/parse.go:156 | a laid-out segment is empty exactly when it holds no note, and otherwise holds at least a header |
| NoteEncoding.LaidStep | pkg/golang/binary/parse.go:156-184 | a layout of several records starts with the first, and one stride on lays out the others |
| NoteEncoding.LaidCons | pkg/golang/binary/parse.go:156-184 | conversely, a record followed one stride on by a layout of the others is a layout of all |
| NoteEncoding.LaidPrepend | pkg/golang/binary/parse.go:156-184 | an encoded record, its padding and a layout of the others is a layout of all |
| NoteEncoding.EncodeNotesLaid | pkg/golang/binary/parse.go:156-184 | encoding notes one after the other gives that layout |
| NoteEncoding.RecordAtReads | pkg/golang/binary/parse.go:157-171 | on a laid-out record the Go and GNU tests recognise exactly Go and GNU notes, nothing wraps, the descriptor is the note's and the step is the record length |
| NoteEncoding.WalkStopsAt | pkg/golang/binary/parse.go:161-174 | a Go note ends the walk with its descriptor; a last record that is not a Go note ends it with the updated fallback |
| NoteEncoding.RecordAtSkips | pkg/golang/binary/parse.go:165-183 | a record that is not a Go note, with another record after it, is stepped over by its length plus the padding to the alignment |
| NoteEncoding.WalkOverRecordAt | pkg/golang/binary/parse.go:156-184 | walking past such a record is walking the rest with the updated fallback |
| NoteEncoding.WalkLaid | pkg/golang/binary/parse.go:154-184 | any laid-out segment, with no alignment or any power-of-two `p_align`, is walked to `Resolve` of its notes |
| NoteEncoding.WalkEncodedNotes | pkg/golang/binary/parse.go:154-184 | round trip: walking the encoding of notes at the segment's file offset, padded to no alignment or any power-of-two `p_align`, with either walk, gives the first Go note, else the last GNU note |
| BuildId.ReadFull | pkg/golang/binary/parse.go:149 | `io.ReadFull`: a full read has no error; EOF when nothing is left; ErrUnexpectedEOF after a partial read, with the bytes that were read at the front |
| BuildId.LoadSegment | pkg/golang/binary/parse.go:133-153 | a segment is `filesz` bytes; it panics exactly when `Off+Filesz` wraps below the buffer length; otherwise its bytes are the buffer slice or the file slice; it fails exactly when the segment is re-read and either the offset is 2^63 or more (the negative-offset seek error) or the segment runs past the end of a non-empty read (EOF when nothing is left, else ErrUnexpectedEOF) |
| BuildId.ScanProgs | pkg/golang/binary/parse.go:128-194 | the loop over program headers, walking each examined segment with the corrected walk, returns an error only with the empty build ID; `BuildIdProps.LoadFailureEndsScan` and `BuildIdProps.ScanErrOnlyFromLoad` state when it fails |
| BuildId.Sanitized | pkg/golang/binary/parse.go:118-121 | the rewritten header has bytes 40-47, 60 and 61 zeroed and every other byte kept |
| BuildId.Zeroed | pkg/golang/binary/parse.go:118-121 | the byte positions of e_shoff and e_shnum; `BuildId.Sanitized` clears exactly these |
| BuildId.ReadElfOf | pkg/golang/binary/parse.go:103-195 | `readELF`: a 32-bit class is refused; `elf.NewFile`'s error is returned as is; otherwise the result is the scan of the prepared buffer's program headers; an error comes with the empty build ID |
| BuildId.BuildIdOf | pkg/golang/binary/parse.go:197-224 | `getBuildID`: a file under 8 bytes gives EOF; an ar archive, an AIX big archive or a non-ELF file gives "Program not supported"; an error comes with the empty build ID |
| BuildId.SanitizeHeader | pkg/golang/binary/parse.go:117-121 | the in-place header rewrite leaves the buffer equal to `Sanitized` of its old contents |
| BuildId.ReadElf | pkg/golang/binary/parse.go:103-195 | the method over the mutable buffer returns `ReadElfOf` and leaves the buffer prepared |
| BuildId.GetBuildId | pkg/golang/binary/parse.go:197-224 | the method returns `BuildIdOf` |
| BuildId.Examined | pkg/golang/binary/parse.go:129 | the header filter: PT_NOTE and at least 16 bytes; `BuildIdProps.NoteProgs` and `BuildIdProps.ScanSeesOnlyNoteProgs` state what it keeps and that the rest do not matter |
| BuildId.Prepared | pkg/golang/binary/parse.go:114-122 | the buffer handed to `elf.NewFile`: rewritten for a 64-bit file, unchanged otherwise; `BuildIdProps.PreparedStable` states what it keeps |
| BuildIdProps.NoteProgs | pkg/golang/binary/parse.go:129 | a header is kept exactly when it is in the input and is a PT_NOTE header of at least 16 bytes, and no more headers are kept than given |
| BuildIdProps.ScanSeesOnlyNoteProgs | pkg/golang/binary/parse.go:128-131 | dropping the headers that are skipped does not change the scan |
| BuildIdProps.LoadFailureEndsScan | pkg/golang/binary/parse.go:144-152 | a segment whose seek or read fails ends the scan with that error and the empty build ID, even when a later segment holds a Go note |
| BuildIdProps.ScanErrOnlyFromLoad | pkg/golang/binary/parse.go:128-194 | conversely, the scan fails only with a reader error, and only when some examined segment failed to load with exactly that error |
| BuildIdProps.GoNoteWins | pkg/golang/binary/parse.go:161-163 | a segment with a Go note ends the scan with that descriptor and no error, whatever follows |
| BuildIdProps.ResolveAppend | pkg/golang/binary/parse.go:128-185 | resolving two runs of notes: the second run only matters when the first has no Go note, and then starts from the first's fallback |
| BuildIdProps.ResolveFirstGo | pkg/golang/binary/parse.go:161-163 | the first Go note decides |
| BuildIdProps.LastGnu | pkg/golang/binary/parse.go:165-167 | the last GNU descriptor is the incoming fallback or the descriptor of some GNU note, and it is the fallback when there is no GNU note |
| BuildIdProps.LastGnuIsLast | pkg/golang/binary/parse.go:165-167 | a GNU note that no other GNU note follows gives the last GNU descriptor: a later GNU match overwrites an earlier one |
| BuildIdProps.ResolveLastGnu | pkg/golang/binary/parse.go:165-167 | without a Go note, the last GNU note wins |
| BuildIdProps.AsOutcome | pkg/golang/binary/parse.go:190-194 | a finished resolution is a build ID with no error: the Go descriptor or the GNU fallback |
| BuildIdProps.ScanLaidOut | pkg/golang/binary/parse.go:128-194 | over well-formed note segments, with no alignment or any power-of-two `p_align`, the scan finds the first Go note of all segments together, else the last GNU note, and never fails |
| BuildIdProps.ReadElfFindsBuildId | pkg/golang/binary/parse.go:103-195 | end to end for a 64-bit file with well-formed note segments: the first Go note, else the last GNU note, else the empty build ID |
| BuildIdProps.LoadAgrees | pkg/golang/binary/parse.go:133-153 | sliced from the buffer or read again, a segment holds the file's bytes |
| BuildIdProps.PreparedStable | pkg/golang/binary/parse.go:114-122 | preparing the header keeps the identification bytes and is idempotent |
| BuildIdProps.HeaderOf | pkg/golang/binary/parse.go:211-215 | the header buffer is the start of the file, zero-padded to 32 KiB |
| BuildIdProps.ElfReachesReadElf | pkg/golang/binary/parse.go:211-221 | an ELF file of at least 8 bytes reaches `readELF` with its header buffer, even when it is shorter than 32 KiB |
| GoBinary.HasSuffix | pkg/golang/binary/parse.go:38 | `strings.HasSuffix`; `GoBinary.HasSuffixIff` states its meaning |
| GoBinary.HasSuffixIff | pkg/golang/binary/parse.go:38 | `HasSuffix` holds exactly when the text is something followed by the suffix |
| GoBinary.SuffixesExclusive | pkg/golang/binary/parse.go:38-43 | no text ends with both recognised suffixes |
| GoBinary.ConvertError | pkg/golang/binary/parse.go:36-46 | the unrecognized-format suffix gives ErrUnrecognizedExe, the not-a-Go-executable suffix gives ErrNonGoBinary, and any other error is passed on unchanged; each holds in both directions |
| GoBinary.ErrorText | pkg/golang/binary/parse.go:68 | `err.Error()` for the errors of `getBuildID`; `GoBinary.ParseWarnsOnBuildIdError` states its use as the warning |
| GoBinary.BytesToString | pkg/golang/binary/parse.go:163 | `string(b)` has one character per byte with the byte's value |
| GoBinary.Record | pkg/golang/binary/parse.go:82-92 | a record is named after the replacement module when there is one, else the module, and carries the build ID and warnings |
| GoBinary.Assemble | pkg/golang/binary/parse.go:74-93 | no more records than dependencies; every record carries the same build ID and warnings and comes from a dependency with a path |
| GoBinary.ParseOf | pkg/golang/binary/parse.go:55-96 | a decoding error is converted; an empty dependency list gives no records |
| GoBinary.Parse | pkg/golang/binary/parse.go:55-96 | the method returns `ParseOf` |
| GoBinary.WithPath | pkg/golang/binary/parse.go:78-80 | the dependencies kept are exactly those with a path |
| GoBinary.AssembleAppend | pkg/golang/binary/parse.go:74-93 | the records of a concatenation are the concatenated records |
| GoBinary.AssembleInOrder | pkg/golang/binary/parse.go:74-93 | exactly one record per dependency with a path, in dependency order |
| GoBinary.ParseSharesBuildId | pkg/golang/binary/parse.go:64-92 | all records of one parse share the build ID and the warnings |
| GoBinary.ParseWarnsOnBuildIdError | pkg/golang/binary/parse.go:64-69 | when the build ID cannot be had, every record has the empty build ID and the error text as its only warning |
| GoBinary.ParseCarriesBuildId | pkg/golang/binary/parse.go:64-70 | with a build ID and no error, every record carries it and no warning |
| Utils.IsRetryableError | pkg/utils/utils.go:14-24 | 429, 0, and 500 and above except 501; `Utils.RetryableByClass` states it class by class |
| Utils.RetryableByClass | pkg/utils/utils.go:14-24 | 1xx-3xx are never retried; among 4xx only 429; among 5xx and above all but 501; below 100 only 0 |
| Utils.PackageId | pkg/utils/utils.go:71-73 | the identifier is the name, an `@`, then the version |
| Utils.PackageIdInjective | pkg/utils/utils.go:71-73 | for names without `@`, equal identifiers mean equal names and versions, and conversely |
| Utils.Dedup | pkg/utils/utils.go:26-37 | the reference de-duplication: a string is kept at its first occurrence only; the `Utils.Dedup…` lemmas state its properties and `Utils.UniqueStrings` is proved equal to it |
| Utils.DedupSameElements | pkg/utils/utils.go:26-37 | de-duplication keeps exactly the strings of the input |
| Utils.DedupNoDuplicates | pkg/utils/utils.go:26-37 | the result repeats no string |
| Utils.DedupFirstOccurrenceOrder | pkg/utils/utils.go:26-37 | the result lists strings in the order of their first occurrence |
| Utils.DedupDistinct | pkg/utils/utils.go:26-37 | a list without repetitions is unchanged |
| Utils.DedupIdempotent | pkg/utils/utils.go:26-37 | de-duplicating twice is de-duplicating once |
| Utils.UniqueStrings | pkg/utils/utils.go:26-37 | the loop with its seen-set returns the de-duplication of its input |
| Utils.Absorb | pkg/utils/utils.go:44-53 | one loop step: the record's identifier is added to the keys; a new identifier gets the record; a known one keeps its first record with the new locations appended; other entries are unchanged |
| Utils.AbsorbAll | pkg/utils/utils.go:43-54 | the reference for the merge loop: the map after absorbing each record in turn; `Utils.AbsorbAllEntries` states its entries |
| Utils.AbsorbEntry | pkg/utils/utils.go:44-54 | one loop step keeps the entry of every identifier as promised by `AbsorbAllEntries` |
| Utils.AbsorbAllEntries | pkg/utils/utils.go:43-54 | one entry per identifier of the input and no other; each entry is the first record with that identifier, holding the locations of all such records in input order |
| Utils.UniqueLibraries | pkg/utils/utils.go:39-54 | nil exactly for no input; otherwise the map of merged records built by the loop |
| Utils.Override | pkg/utils/utils.go:65-67 | the keys are those of both maps; the child's values win; the parent's other values are kept |
| Utils.StringMap.constructor | pkg/utils/utils.go:61-69 | the Go map `MergeMaps` updates in place, as an object holding its entries; a new one holds the given entries |
| Utils.MergeMaps | pkg/utils/utils.go:61-69 | a nil parent returns the child itself; otherwise the parent map is updated in place to the parent overridden by the child, and returned |

## Left out

- Reading the module information (`buildinfo.Read`) is the parameter `info` of `GoBinary.Parse`: the dependency list, or the error text. Decoding the Go build-info blob is not part of this model.
- Decoding the ELF header and program header table (`elf.NewFile`) is the parameter `newFile`. It maps the prepared header buffer to a byte order and the `Type`, `Off`, `Filesz` and `Align` of each program header, or to an error message.
- The reader `dio.ReadSeekerAt` is an in-memory byte sequence read the way `bytes.Reader` reads. A seek to an offset of 2^63 or more fails with `bytes.Reader`'s negative-position error. The cursor is assumed to be at offset 0 when `getBuildID` starts reading; `buildinfo.Read` only uses `ReadAt`. Other readers (files, with their own errors) are not modelled.
- BuildId.LoadSegment: `make([]byte, p.Filesz)` for a huge `Filesz` fails to allocate in Go; the model reads the file as if it could allocate.
- Utils.UniqueLibraries: returns the keyed map the loop builds. The listing of its values (`maps.Values`) and the `sort.Sort` by `types.Libraries` are left out. The ordering they define lives in the `types` package, which is not part of this model.
- Utils.AbsorbAll: merged locations are concatenated in input order; the `sort.Sort` of the locations after each merge (utils.go:51) is left out, for the same reason.
- Utils.Absorb: the one loop step appends the locations of a repeated identifier without sorting them, as above.
- `types.Library` keeps only the fields the modelled code reads or writes (name, version, build ID, warnings, locations). Aliasing of the appended `Locations` and `Warnings` slices between records is not modelled. Go's nil slice and empty slice are both the empty sequence.
- GoBinary.BytesToString: Go's `string(b)` is modelled as one character per byte, without UTF-8 decoding.
- A Go run-time panic and a loop that never ends are outcomes (`WalkPanic`, `WalkHang`, `Panicked`, `ParsePanicked`), not crashes or non-termination of the model.
- `JAVA_ARTIFACT_PARSER_ERROR` (utils.go:12) is a constant no modelled code uses.
- `NewParser` and the empty dependency list `Parse` returns alongside its libraries carry no logic and are left out.
- `IsRetryableError` takes the status code as an unbounded integer; Go's `int` is 64-bit, and the test does not depend on the width.

## Findings

| source | as written | input that shows it | evidently intended | confidence | as-written member | corrected member |
|---|---|---|---|---|---|---|
| pkg/golang/binary/parse.go:169-174 | the record step `12 + align4(namesz) + align4(descsz)` is summed in uint32 and can wrap to 0, so `filesz`, `off` and `note` never change | one 16-byte record with namesz 0xFFFFFFF4 and descsz 0: the step is 0 and the loop never ends | a step that cannot be taken (0, or past the segment) ends the walk of the segment | high (not executed) | ElfNoteProps.ZeroStepHangs | ElfNote.WalkGuarded, with ElfNoteProps.WalkGuardedAgrees |
| pkg/golang/binary/parse.go:176-183 | alignment padding is added to the step after the `filesz <= notesz` test, so the step can exceed the bytes left and `note[notesz:]` is out of range | a 20-byte segment with `p_align` 32 whose first record is 16 bytes: the step becomes 32, with 20 bytes left, and the slice panics | padding past the end of the segment ends the walk | high (not executed) | ElfNoteProps.PaddingOverrunPanics | ElfNote.WalkGuarded, with ElfNoteProps.WalkGuardedAgrees |
| pkg/golang/binary/parse.go:161-163 | the length test compares with `uint32(len(note))`, which drops all but the low 32 bits of the length | a segment of 2^32+8 bytes holding a Go note with descsz 0xFFFFFFE0 followed by 24 zero bytes: `uint32(len(note))` is 8, the note is skipped, and no build ID is found | the descriptor is accepted whenever it fits in the bytes left | high (not executed) | ElfNoteProps.TruncatedLengthHidesGoNote | ElfNote.WalkGuarded, with ElfNoteProps.WalkGuardedAgrees |
| pkg/golang/binary/parse.go:161-163 | the length test `16+valSize <= uint32(len(note))` is computed in uint32 and can wrap | a Go note with descsz 0xFFFFFFF0: `16+valSize` wraps to 0, the test passes, and `note[16:0]` panics | the descriptor is accepted only when it fits in the bytes left | high (not executed) | ElfNoteProps.DescSizeWrapPanics | ElfNote.WalkGuarded, with ElfNoteProps.WalkGuardedAgrees |
