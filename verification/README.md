# qtlmovie core, modelled in Dafny

This project models the core of qtlmovie, a Qt front end that transcodes
movie files to DVD, iPad or SubRip output. The model follows the C++ source
file by file and proves properties of each part:

- **libQtl utilities**:
  - `QtlRange`: ranges of 64-bit integers with overflow-safe add, scale, merge and clip.
  - `QtlByteBlock` readers: big- and little-endian fields and Latin-1 strings.
  - Integer and string helpers: `qtlToInt`, padding and simplification.
  - The version number.
  - The `qtlHexa` dump.
- **libQts MPEG transport stream support**:
  - The `QtsCore` constants and helpers.
  - `QtsSection`: header checks, CRC32 validation and recomputation, accessors.
  - `QtsTable`: the assembly of sections into a complete table.
  - Descriptors and `QtsDescriptorList`: private data specifiers, the removal of orphan private descriptors, and the serialization into a block.
  - The Teletext demultiplexer's code tables: Hamming 8/4, Hamming 24/18, bit reversal, BCD.
- **libQts DVD support**:
  - `QtsDvdMedia`: the ISO 9660 directory walk, file sorting, sector reads.
  - `QtsDvdTitleSet`: opening the IFO and VOB files of a title set.
  - The program chain parser of `QtlDvdProgramChain`: the validity test, the BCD playback duration, the program cell ranges, the palette.
  - `QtsDvdProgramChainDemux`: sector-by-sector extraction of a program chain, with the navigation-pack address rewriting.
  - `QtlMovieDvdExtractionSession`: the list of files to extract and its progress.
  - The `TestIfoDump` test tool's view of the same structures.
- **The application layer**:
  - `QtlMovieInputFile`: stream selection.
  - `QtlMovieJob`: whether a transcoding is possible, and the chapter options.
  - `QtlMediaStreamInfo`: the merging of ffprobe information.
  - The SubStation Alpha (SSA/ASS) subtitle frames, times and lines.

Pure computations are functions with lemmas. Objects whose methods update
their fields are classes with `modifies` and `reads` frames. Loops are
methods with invariants, proved against a specification function. Where
verification showed the C++ code does not do what it evidently intends,
the model keeps both versions, as listed under Findings.

## Model

| member | source | states |
|---|---|---|
| `QtlRange.Last` | src/libQtl/QtlRange.cpp:72-75 | the last value of a non-empty range is in it and the next one is not; an empty range reports first - 1, or RANGE_MIN at the very bottom |
| `QtlRange.SpanOfBounds` | src/libQtl/QtlRange.h:91-94 | the range from first to last starts at first, is empty when last < first, ends exactly at last otherwise, and holds only values between the bounds |
| `QtlRange.Range.constructor` | src/libQtl/QtlRange.h:80-84 | the default range is empty at 0 |
| `QtlRange.Range.FromBounds` | src/libQtl/QtlRange.h:91-94 | the new range is the range between the two bounds |
| `QtlRange.Range.SetFirst` | src/libQtl/QtlRange.cpp:48-60 | the first value moves and the end stays where it was; a first value past the end empties the range |
| `QtlRange.Range.SetLast` | src/libQtl/QtlRange.cpp:62-65 | first is unchanged; a last value below first gives count 0, otherwise count = last - first + 1 and last() returns it |
| `QtlRange.Range.Add` | src/libQtl/QtlRange.cpp:82-117 | every value moves by the offset and the values leaving qint64 are dropped, so add never overflows; a complete overflow at the top gives the empty range at RANGE_MAX; an empty range moves to first + offset whenever that fits in qint64 |
| `QtlRange.Range.Scale` | src/libQtl/QtlRange.cpp:124-147 | a negative first value or a non-positive factor gives the empty range at 0; otherwise first and end are multiplied by the factor and bounded by RANGE_MAX (with exact overflow tests, see Findings) |
| `QtlRange.Range.Merge` | src/libQtl/QtlRange.cpp:187-197 | the merged first value is the smaller first value and the end is the larger end (the count wraps when the hull holds 2^64 values) |
| `QtlRange.Range.Clip` | src/libQtl/QtlRange.cpp:204-219 | the result holds exactly the values in both ranges; a range wholly above the limit becomes the empty range right after the limit's last value; otherwise the result, empty or not, starts at the larger of the two first values |
| `QtlRange.Overlap` | src/libQtl/QtlRange.cpp:154-162 | true iff some value lies in both ranges (empty ranges excluded, see Findings) |
| `QtlRange.OverlapSymmetric` | src/libQtl/QtlRange.cpp:154-162 | overlap does not depend on the order of the two ranges |
| `QtlRange.Adjacent` | src/libQtl/QtlRange.cpp:169-180 | true iff, with AdjacentBefore, the other range starts at this one's end, or, with AdjacentAfter, this one starts at the other's end |
| `QtlRange.AdjacentBeforeMeansStartsAtEnd` | src/libQtl/QtlRange.cpp:174-175 | adjacent with AdjacentBefore holds iff other.first == first + count; AdjacentAny is either direction |
| `QtlRange.AdjacentNotOverlap` | src/libQtl/QtlRange.cpp:154-180 | two adjacent ranges never overlap |
| `QtlRange.OverlapAsWrittenEmptyRange` | src/libQtl/QtlRange.cpp:154-162 | as written, the empty range at 5 overlaps 5..9 in one direction and not the other |
| `QtlRange.ScaleAsWrittenDropsValues` | src/libQtl/QtlRange.cpp:130-134 | as written, scaling a one-value range whose product still fits reports a complete overflow |
| `QtlRange.ScaleAsWrittenStretches` | src/libQtl/QtlRange.cpp:137-141 | as written, a partial-overflow test that fires too early stretches the range up to RANGE_MAX |
| `QtlRange.ClipAsWrittenCreatesValue` | src/libQtl/QtlRange.cpp:204-219 | as written, clipping the empty range at RANGE_MIN by itself produces a one-value range |
| `Bytes.EncodeBE16` | src/libQtl/QtlByteBlock.h:209-212 | two bytes in network order that read back as the same 16-bit value |
| `Bytes.EncodeBE32` | src/libQtl/QtlByteBlock.h:218-221 | four bytes in network order that read back as the same 32-bit value |
| `Bytes.PatchContents` | src/libQtl/QtlByteBlock.h:297-300 | writing bytes in place shows them at their offset and leaves every other byte of the block untouched |
| `Strings.ToInt` | src/libQtl/QtlStringUtils.cpp:46 | a successful base-10 conversion yields a 32-bit int, non-negative when the text starts with a digit |
| `Strings.QtlToInt` | src/libQtl/QtlStringUtils.cpp:41-48 | once white space (the `QChar::isSpace` set, Unicode separators included) and underscores are removed, the result is the default or a value within min..max |
| `Strings.NumberTextToInt` | src/libQtl/QtlStringUtils.cpp:41-48 | the decimal text of any int within min..max converts back to that int |
| `Strings.FieldValue` | src/libQtl/QtlStringUtils.cpp:41-48 | a version or timestamp field read by qtlToInt with default -1 and minimum 0 is a non-negative int, or -1 when it is not one |
| `Strings.DecimalFieldValue` | src/libQtl/QtlStringUtils.cpp:41-48 | every value up to the int maximum reads back from its decimal digits |
| `Strings.DecimalTextValue` | src/libQtl/QtlStringUtils.cpp:41-48 | the digits of n read back as n |
| `QtsCore.ToBitrate204` | src/libQts/QtsCore.h:161-164 | scaling a bitrate by 204/188 gives a 32-bit bitrate |
| `QtsCore.ToBitrate188` | src/libQts/QtsCore.h:171-174 | scaling a bitrate by 188/204 gives a 32-bit bitrate |
| `QtsCore.Bitrate204Bounds` | src/libQts/QtsCore.h:161-164 | with no 32-bit truncation, the 204-byte bitrate is the exact ratio rounded down and never lower than the input |
| `QtsCore.BitrateRoundTrip` | src/libQts/QtsCore.h:161-174 | converting to 204-byte packets and back loses at most one bit per second |
| `QtsCore.PacketInterval` | src/libQts/QtsCore.h:182-185 | a null bitrate gives an interval of 0 |
| `QtsCore.PacketIntervalBounds` | src/libQts/QtsCore.h:182-185 | without 64-bit overflow, the interval is the exact transmission time of the packets rounded down to the millisecond |
| `QtsCore.PacketDistanceBounds` | src/libQts/QtsCore.h:193-196 | without 64-bit overflow, the distance is the exact packet count of the duration rounded toward zero |
| `QtsCore.DistanceOfInterval` | src/libQts/QtsCore.h:182-196 | over the interval between two packets no more packets are sent than their distance |
| `QtsCore.SectionPacketCountMinimal` | src/libQts/QtsCore.h:203-208 | (size + 184) / 184 packets hold the section and its pointer field, and one packet fewer would not |
| `QtsCore.WrapUpIsShortStep` | src/libQts/QtsCore.h:299-302 | a wrap-up holds iff pts2 is below pts1 and lies less than 2^28 ticks after it on the 33-bit clock |
| `QtsCore.SequencedOneWay` | src/libQts/QtsCore.h:299-317 | a wrap-up goes one way only; of two distinct stamps one is sequenced after the other |
| `QtsCore.SidRanges` | src/libQts/QtsCore.h:366-379 | the masked tests accept exactly the video ids 0xE0..0xEF and the audio ids 0xC0..0xDF, which are disjoint |
| `DvdProgramChain.ParseProgramChain` | src/libQtl/QtlDvdProgramChain.cpp:41-119 | the PGC is valid iff its 0xEC-byte header, program map and cell table fit in the IFO and every program names a cell in 1..cellCount with first <= last; a valid PGC's sectors are the program ranges in program order with adjacent ranges merged |
| `DvdProgramChain.ReadProgramSpans` | src/libQtl/QtlDvdProgramChain.cpp:91-109 | the program loop succeeds iff every program is well formed, and then yields each program's cell range in program order |
| `DvdProgramChain.ValidPgcSectors` | src/libQtl/QtlDvdProgramChain.cpp:110-115 | the merged sectors hold exactly the sectors of the programs' cells in program order, are non-empty, and no range starts where the previous one ends |
| `DvdProgramChain.MergeAdjacentKeepsValues` | src/libQtl/QtlDvdProgramChain.cpp:112-113 | merging adjacent ranges keeps every sector, in the same order |
| `DvdProgramChain.MergeAdjacentMaximal` | src/libQtl/QtlDvdProgramChain.cpp:112-113 | after merging, no range starts where the previous one ends |
| `DvdProgramChain.MergeAdjacentShape` | src/libQtl/QtlDvdProgramChain.cpp:112-113 | merging never adds ranges and keeps the end of the last range |
| `DvdProgramChain.MergeAdjacentCounts` | src/libQtl/QtlDvdProgramChain.cpp:112-113 | merging keeps every count non-negative |
| `DvdProgramChain.MergeAdjacentPositive` | src/libQtl/QtlDvdProgramChain.cpp:112-113 | merging non-empty ranges at or after sector 0 keeps them so |
| `DvdProgramChain.PlaybackDurationOfBytes` | src/libQtl/QtlDvdProgramChain.cpp:204-216 | the duration field is 3600 h + 60 m + s, each read from a BCD byte, frames ignored |
| `DvdProgramChain.ToBcd` | src/libQtl/QtlDvdProgramChain.cpp:204-216 | the BCD byte of a two-digit number decodes back to it |
| `DvdProgramChain.PlaybackDurationRoundTrip` | src/libQtl/QtlDvdProgramChain.cpp:204-216 | encoding hh:mm:ss in BCD and decoding the field gives back the time in seconds, whatever the frame byte |
| `DvdProgramChain.ConvertPaletteYuvToRgb` | src/libQtl/QtlDvdProgramChain.cpp:138-177 | every byte of the palette becomes its converted value in place: byte 0 of an entry kept, R, G and B computed from Y, Cr, Cb and clamped to 0..255, a trailing partial entry untouched |
| `DvdProgramChain.GreyStaysGrey` | src/libQtl/QtlDvdProgramChain.cpp:163-176 | an entry with both chroma bytes at 128 converts to its luma on all three colours |
| `DvdProgramChain.FullChromaSaturates` | src/libQtl/QtlDvdProgramChain.cpp:163-176 | the largest chroma values saturate red and blue at 255 and pull green below the luma |
| `DvdProgramChain.Hex2Decodes` | src/libQtl/QtlDvdProgramChain.cpp:184-197 | the two hexadecimal digits written for a byte read back as that byte |
| `DvdProgramChain.PaletteToString` | src/libQtl/QtlDvdProgramChain.cpp:184-197 | the loop builds one "rrggbb" entry per complete 4-byte palette entry, separated by commas |
| `DvdProgramChain.JoinCommasLayout` | src/libQtl/QtlDvdProgramChain.cpp:184-197 | six-character entries joined by commas sit at 7 * e with a comma after every entry but the last |
| `DvdProgramChain.PaletteTextLayout` | src/libQtl/QtlDvdProgramChain.cpp:184-197 | the palette text has 7 characters per entry less one, entry e holding bytes 1..3 of palette entry e in hexadecimal |
| `TestIfoDump.AssignAngles` | src/TestTool/TestIfoDump.cpp:385-399 | the cell loop gives every cell the angle id its category and the running counter determine |
| `TestIfoDump.AngleBeforeBounds` | src/TestTool/TestIfoDump.cpp:385-399 | the angle counter stays between 0 and the number of cells seen |
| `TestIfoDump.AngleIdBounds` | src/TestTool/TestIfoDump.cpp:385-399 | a common cell (category 0) gets angle 0, and every angle id lies in 0..i+1 |
| `TestIfoDump.AngleBlockCounts` | src/TestTool/TestIfoDump.cpp:385-399 | inside an angle block (0x50, 0x90..., 0xD0) the cell at i gets angle i - start + 1, and 0xD0 resets the counter |
| `TestIfoDump.AngleBlockIds` | src/TestTool/TestIfoDump.cpp:385-399 | the cells of an angle block get angles 1..k and the counter is 0 after the block |
| `TestIfoDump.CellsForAngleMembers` | src/TestTool/TestIfoDump.cpp:641-646 | a cell is kept iff it is in the chain and its angle id is 0 or the requested angle |
| `TestIfoDump.CellsForAngleAppend` | src/TestTool/TestIfoDump.cpp:641-646 | filtering distributes over concatenation, so the kept cells keep program chain order |
| `TestIfoDump.DemuxCells` | src/TestTool/TestIfoDump.cpp:617-646 | demuxPgc fails iff the PGC number is outside 1..count or the angle is below 1; otherwise it keeps the cells for that angle |
| `TestIfoDump.FindVob` | src/TestTool/TestIfoDump.cpp:739-744 | the VOB found holds the sector and no earlier one does; none is found only when no VOB holds it |
| `TestIfoDump.SectorData` | src/TestTool/TestIfoDump.cpp:759-763 | a sector read from a file is 2048 bytes |
| `TestIfoDump.SectorReader.constructor` | src/TestTool/TestIfoDump.cpp:721-725 | after resetRead no VOB is current and no sector is expected next |
| `TestIfoDump.SectorReader.ReadSector` | src/TestTool/TestIfoDump.cpp:729-766 | a negative sector fails; a sector in no VOB fails; otherwise the data is the sector's 2048 bytes from the first VOB holding it, re-seeking whenever the sector is not the expected next one |
| `TestIfoDump.PlaybackSeconds` | src/TestTool/TestIfoDump.cpp:770-780 | playbackSeconds agrees with the program chain's BCD duration decoding |
| `TestIfoDump.PlaybackSecondsOfBcd` | src/TestTool/TestIfoDump.cpp:770-780 | a field holding hh, mm, ss in BCD decodes to 3600 hh + 60 mm + ss seconds |
| `DvdTitleSet.IsDvdTitleSetFileName` | src/libQts/QtsDvdTitleSet.cpp:188-206 | an accepted name always has the suffix IFO or VOB, in any case |
| `DvdTitleSet.IfoNameAccepted` | src/libQts/QtsDvdTitleSet.cpp:188-206 | VTS_nn_0.IFO, a base name ending in "_0", is accepted |
| `DvdTitleSet.VobNameAccepted` | src/libQts/QtsDvdTitleSet.cpp:188-206 | VTS_nn_d.VOB, a base name longer than 2 characters ending in "_" and a digit, is accepted |
| `DvdTitleSet.BackupNameRejected` | src/libQts/QtsDvdTitleSet.cpp:188-206 | the backup VTS_nn_0.BUP is rejected |
| `DvdTitleSet.VideoStream` | src/libQts/QtsDvdTitleSet.cpp:285-347 | the one video stream has id 0x1E0 and the frame size that the video standard and resolution bits select |
| `DvdTitleSet.AudioCount` | src/libQts/QtsDvdTitleSet.cpp:364-365 | the audio count is the IFO count capped at 8 |
| `DvdTitleSet.SubpicCount` | src/libQts/QtsDvdTitleSet.cpp:417-418 | the subpicture count is the IFO count capped at 32 |
| `DvdTitleSet.AudioStream` | src/libQts/QtsDvdTitleSet.cpp:367-412 | audio stream i has 1..8 channels and the stream id its coding mode selects (0x80/0xC0/0xC8/0xA0/0x88 + i) |
| `DvdTitleSet.AudioIdIndex` | src/libQts/QtsDvdTitleSet.cpp:388-404 | a known audio stream id carries the stream index in its low 3 bits |
| `DvdTitleSet.SubpicStream` | src/libQts/QtsDvdTitleSet.cpp:420-451 | subpicture stream i is a DVD subtitle with stream id 0x20 + i |
| `DvdTitleSet.ReadAudioStreams` | src/libQts/QtsDvdTitleSet.cpp:367-412 | the loop yields the audio streams in attribute table order |
| `DvdTitleSet.ReadSubpicStreams` | src/libQts/QtsDvdTitleSet.cpp:420-451 | the loop yields the subpicture streams in attribute table order |
| `DvdTitleSet.EntryCount` | src/libQts/QtsDvdTitleSet.cpp:471 | the cell address loop visits exactly the ceil(d/12) entries of the table |
| `DvdTitleSet.TitleSet.constructor` | src/libQts/QtsDvdTitleSet.cpp:119-134 | an empty title set, as after clear() |
| `DvdTitleSet.TitleSet.Title` | src/libQts/QtsDvdTitleSet.h:139-142 | title n is found only for n in 1..titleCount, at index n - 1 |
| `DvdTitleSet.TitleSet.ReadVtsIfo` | src/libQts/QtsDvdTitleSet.cpp:269-527 | an IFO shorter than 0x3D8 or not starting with "DVDVIDEO-VTS" is rejected with nothing read; otherwise video, audio and subpicture streams are appended in order; a cell table that does not fit fails; the read succeeds iff the header, the cell table and the program chain table are all read without error, and the PGC list becomes `ChainsRead` of the old one: each title holds the chain parsed from the last entry naming it, up to the first entry whose PGC is not valid |
| `DvdTitleSet.TitleSet.AppendStreams` | src/libQts/QtsDvdTitleSet.cpp:285-451 | the video stream, then the audio streams, then the subpicture streams are appended and nothing else changes |
| `DvdTitleSet.TitleSet.ReadCellTable` | src/libQts/QtsDvdTitleSet.cpp:453-478 | reading the cell address table succeeds iff it fits in the IFO, and then appends its cells |
| `DvdTitleSet.TitleSet.ReadProgramChains` | src/libQts/QtsDvdTitleSet.cpp:480-526 | ok iff the table header fits and no set, in-range entry has an invalid PGC (`ChainsOk`); the PGC list becomes the old one with the entries before the first failing one loaded in table order (`ChainsRead`); no slot beyond pgcCount is created, only those slots change, and every set, in-range entry has its title stored on success |
| `DvdTitleSet.TitleSet.ReadPgcEntry` | src/libQts/QtsDvdTitleSet.cpp:497-521 | an entry not set or with a title number outside 1..pgcCount is skipped; otherwise the chain parsed from the entry's PGC start is stored under the entry's title when valid; ok is false exactly when that parse is not valid, and then the list is unchanged |
| `DvdTitleSet.TitleSet.LoadTitle` | src/libQts/QtsDvdTitleSet.cpp:509-521 | ok iff the PGC at pgcStart is valid; then title titleNumber holds exactly the chain the parser builds from it (`ValidChain`) and only that slot changes; otherwise the PGC list is unchanged |
| `DvdTitleSet.TitleSet.StoreTitle` | src/libQts/QtsDvdTitleSet.cpp:513-520 | a valid PGC is stored at index titleNumber - 1, growing the list with empty slots, and every other slot is kept (the list becomes `Stored` of the old one) |
| `DvdTitleSet.Stored` | src/libQts/QtsDvdTitleSet.cpp:513-520 | storing a chain grows the list to its title number when shorter, puts the chain at index titleNumber - 1, and leaves every other slot as it was or empty |
| `DvdTitleSet.EntriesNumbered` | src/libQts/QtsDvdTitleSet.cpp:497-520 | an entry stores a chain iff it is set, its title number is in 1..pgcCount and its PGC is valid; every chain stored is valid and numbered in 1..pgcCount |
| `DvdTitleSet.FirstFailure` | src/libQts/QtsDvdTitleSet.cpp:496-521 | the reading loop stops at the first set, in-range entry whose PGC is not valid: no entry before the result fails, and the result is pgcCount or a failing entry |
| `DvdTitleSet.LoadedIndexed` | src/libQts/QtsDvdTitleSet.cpp:513-520 | loading entries keeps every stored PGC valid and at the index of its title number |
| `DvdTitleSet.LoadedLength` | src/libQts/QtsDvdTitleSet.cpp:513-520 | loading entries only grows the list, to at most pgcCount slots, changes only slots of titles 1..pgcCount and never removes a stored PGC |
| `DvdTitleSet.LoadedHasEntries` | src/libQts/QtsDvdTitleSet.cpp:513-520 | after loading entries, the title of every entry that stores a chain is present in the list |
| `DvdTitleSet.LoadedLastEntry` | src/libQts/QtsDvdTitleSet.cpp:513-520 | a title holds the chain of the last loaded entry that names it |
| `DvdTitleSet.LoadedSource` | src/libQts/QtsDvdTitleSet.cpp:513-520 | every slot that loading filled or changed holds the chain of an entry naming that title, and no later entry names it |
| `DvdTitleSet.LoadedSnoc` | src/libQts/QtsDvdTitleSet.cpp:496-521 | loading one more entry applies that entry to the list loaded so far |
| `DvdTitleSet.LoadedStep` | src/libQts/QtsDvdTitleSet.cpp:496-521 | one turn of the reading loop loads entry i onto the entries before it |
| `DvdTitleSet.ChainsReadOk` | src/libQts/QtsDvdTitleSet.cpp:496-526 | with no failing entry, the whole table is loaded and every set, in-range entry has its title stored |
| `DvdTitleSet.ChainsReadFailed` | src/libQts/QtsDvdTitleSet.cpp:496-526 | when entry m fails first, the list read is the entries up to m loaded, the failing one storing nothing |
| `DvdTitleSet.EntriesPrefix` | src/libQts/QtsDvdTitleSet.cpp:497-520 | the chains stored by any prefix of the table are valid and numbered in 1..pgcCount |
| `DvdTitleSet.TitleSet.TitleNumberOf` | src/libQts/QtsDvdTitleSet.cpp:513-520 | a PGC found as title n carries title number n |
| `DvdTitleSet.TitleSet.AllTitles` | src/libQts/QtsDvdTitleSet.cpp:534-563 | an unknown title gives the empty list; otherwise the title is in the list, preceded by its chain of previous titles and followed by its chain of next titles, each title at most once |
| `DvdTitleSet.TitleSet.PreviousTitles` | src/libQts/QtsDvdTitleSet.cpp:547-552 | the first loop yields the title preceded by its chain of distinct previous titles |
| `DvdTitleSet.TitleSet.NextTitles` | src/libQts/QtsDvdTitleSet.cpp:554-560 | the second loop extends the list by the chain of distinct next titles and keeps the prefix |
| `DvdTitleSet.PrependLink` | src/libQts/QtsDvdTitleSet.cpp:547-552 | a title not yet visited that the list names as previous extends the chain backwards and keeps the titles distinct |
| `DvdTitleSet.LessThanStrictOrder` | src/libQts/QtsDvdTitleSet.cpp:600-624 | lessThan (null least, then stream type, then id, audio ids compared by id & 7) is irreflexive, asymmetric and transitive |
| `DvdTitleSet.IfoStreamsInOrder` | src/libQts/QtsDvdTitleSet.cpp:600-624 | streams from one IFO sort by type and then in IFO order within their type |
| `ProgramChainDemux.SectorPosition` | src/libQts/QtsDvdProgramChainDemux.cpp:426-438 | the sector at an offset of a range of a cell is the one at that position of the whole list of sectors of the PGC |
| `ProgramChainDemux.NextCell` | src/libQts/QtsDvdProgramChainDemux.cpp:472-485 | entering a cell, or leaving its last range for the next cell, skips no sector |
| `ProgramChainDemux.NextRange` | src/libQts/QtsDvdProgramChainDemux.cpp:506-509 | leaving a range moves past exactly its sectors |
| `ProgramChainDemux.Walk` | src/libQts/QtsDvdProgramChainDemux.cpp:469-510 | the loop of advance moves exactly `count` sectors forward across ranges and cells in order, or stops past the last cell when fewer are left |
| `ProgramChainDemux.InputSectors.constructor` | src/libQts/QtsDvdProgramChainDemux.cpp:396-404 | a new cursor has no cells and every index at -1 |
| `ProgramChainDemux.InputSectors.Initialize` | src/libQts/QtsDvdProgramChainDemux.cpp:406-419 | the cursor holds the PGC's cells (none for a null PGC) and stands on the first sector |
| `ProgramChainDemux.InputSectors.CurrentSectorAddress` | src/libQts/QtsDvdProgramChainDemux.cpp:426-438 | the address is the sector at the cursor's position in the PGC, or -1 exactly when the cursor is past the last cell |
| `ProgramChainDemux.InputSectors.CurrentSectorCount` | src/libQts/QtsDvdProgramChainDemux.cpp:440-452 | the count is the positive number of sectors left in the current range, or -1 exactly past the last cell |
| `ProgramChainDemux.InputSectors.CurrentOriginalIds` | src/libQts/QtsDvdProgramChainDemux.cpp:518-527 | the original VOB and cell ids of the current cell, 0 and 0 outside the cells |
| `ProgramChainDemux.InputSectors.Advance` | src/libQts/QtsDvdProgramChainDemux.cpp:459-511 | the cursor moves forward exactly n sectors (0 for a negative n), clamped to the end of the PGC, and the cells do not change |
| `ProgramChainDemux.FixSector` | src/libQts/QtsDvdProgramChainDemux.cpp:258-265 | only a navigation pack under NavPacksFixed is changed, and the sector keeps its size |
| `ProgramChainDemux.Step` | src/libQts/QtsDvdProgramChainDemux.cpp:245-276 | a navigation pack sets inPgcContent iff its VOB id and cell id match the current cell, other sectors keep it; a written sector is appended whole and counted, anything else leaves output and count unchanged |
| `ProgramChainDemux.RunNext` | src/libQts/QtsDvdProgramChainDemux.cpp:221-277 | each iteration checks the start code of the next sector, then demultiplexes and fixes it in place, unless the run already failed |
| `ProgramChainDemux.RunKeepsRest` | src/libQts/QtsDvdProgramChainDemux.cpp:221-277 | the sectors not yet processed are still as read |
| `ProgramChainDemux.NextSectorAsRead` | src/libQts/QtsDvdProgramChainDemux.cpp:221-277 | each iteration reads its sector as it was read from the disc |
| `ProgramChainDemux.RunOkIffStartCodes` | src/libQts/QtsDvdProgramChainDemux.cpp:226-230 | demuxBuffer succeeds iff every sector starts with the pack start code 0x000001BA |
| `ProgramChainDemux.RunStaysFailed` | src/libQts/QtsDvdProgramChainDemux.cpp:226-230 | after the first sector without a start code nothing more is processed |
| `ProgramChainDemux.RunWritesWholeSectors` | src/libQts/QtsDvdProgramChainDemux.cpp:269-275 | writtenSectors counts the writes: the output grows by 2048 bytes per written sector and no more sectors are written than read |
| `ProgramChainDemux.FixedNavPackAddress` | src/libQts/QtsDvdProgramChainDemux.cpp:258-265 | under NavPacksFixed, a written navigation pack carries its own output sector number in the LBA fields at 0x2D and 0x40B |
| `ProgramChainDemux.RemovedNavPackDropped` | src/libQts/QtsDvdProgramChainDemux.cpp:269 | under NavPacksRemoved, no navigation pack reaches the output |
| `ProgramChainDemux.Demux.constructor` | src/libQts/QtsDvdProgramChainDemux.cpp:41-81 | the demultiplexer uses the requested PGC, or the fallback PGC when there is none, and starts with nothing written |
| `ProgramChainDemux.Demux.InitializeTransfer` | src/libQts/QtsDvdProgramChainDemux.cpp:88-127 | a null PGC or an angle below 1 fails and changes nothing; otherwise the input stands on the first sector of the PGC, the state is reset, and an encrypted DVD also needs its VOB start sector and an opened device |
| `ProgramChainDemux.Demux.DemuxBuffer` | src/libQts/QtsDvdProgramChainDemux.cpp:209-280 | the new state, the verdict and the buffer are those of the run of the demultiplexer over the first sectorCount sectors |
| `ProgramChainDemux.DemuxSectors` | src/libQts/QtsDvdProgramChainDemux.cpp:221-277 | the loop computes exactly the run over the first n sectors |
| `ProgramChainDemux.DemuxSector` | src/libQts/QtsDvdProgramChainDemux.cpp:221-277 | one iteration of the loop is the next step of the run |
| `ProgramChainDemux.PackStep` | src/libQts/QtsDvdProgramChainDemux.cpp:226-276 | the loop body checks the sector at sectorStart, then filters and fixes it in place |
| `ProgramChainDemux.FixNavPack` | src/libQts/QtsDvdProgramChainDemux.cpp:261-264 | the two stores set both LBA fields of the navigation pack and nothing else |
| `ProgramChainDemux.StoreUInt32` | src/libQtl/QtlByteBlock.h:308-311 | the four bytes at the index become the value as a big-endian quint32 and nothing else changes |
| `ProgramChainDemux.LaterFilesAfter` | src/libQts/QtsDvdProgramChainDemux.cpp:292-299 | the VOB files are numbered contiguously: later files start after the end of earlier ones |
| `ProgramChainDemux.FilesDisjoint` | src/libQts/QtsDvdProgramChainDemux.cpp:292-299 | a sector belongs to one VOB file at most |
| `ProgramChainDemux.FilesCover` | src/libQts/QtsDvdProgramChainDemux.cpp:292-299 | every sector from 0 to the end of the last file belongs to some file |
| `ProgramChainDemux.VobFileSet.constructor` | src/libQts/QtsDvdProgramChainDemux.cpp:287-300 | the files get contiguous sector ranges from 0 and no file is current |
| `ProgramChainDemux.VobFileSet.Read` | src/libQts/QtsDvdProgramChainDemux.cpp:317-368 | a sector in no file returns -1; otherwise the sectors read come from the file holding the address, starting there and stopping at the end of that file |
| `DvdMedia.DeviceSeek` | src/libQts/QtsDvdMedia.cpp:367-371 | the device seek succeeds exactly for a position on the media and returns it |
| `DvdMedia.DeviceRead` | src/libQts/QtsDvdMedia.cpp:447-449 | a device read delivers 1..n consecutive readable sectors, or -1 exactly when the first sector is bad; it never returns 0 (see Left out) |
| `DvdMedia.GatheredLength` | src/libQts/QtsDvdMedia.cpp:456-475 | except under SkipBadSectors, the buffer holds one sector per sector passed |
| `DvdMedia.GatheredAt` | src/libQts/QtsDvdMedia.cpp:456-475 | under ErrorOnBadSectors or ReadBadSectorsAsZero, entry k of the buffer is sector start + k, zero-filled when bad |
| `DvdMedia.GatheredReadable` | src/libQts/QtsDvdMedia.cpp:446-455 | a run of readable sectors appends their contents, whatever the policy |
| `DvdMedia.ReadableKeepsLongest` | src/libQts/QtsDvdMedia.cpp:449-455 | a successful read resets the bad-sector budget and starts no new bad run |
| `DvdMedia.FindFile` | src/libQts/QtsDvdMedia.cpp:345-354 | the file found is the first of the layout holding the sector; none is found only when no file holds it |
| `DvdMedia.ReadLoop` | src/libQts/QtsDvdMedia.cpp:397-489 | the loop delivers the sectors the bad-sector policy gathers from the start position, never more than asked; when the media is open it never passes the volume size; ErrorOnBadSectors never passes a bad sector, and no policy passes more than 64 consecutive ones |
| `DvdMedia.ReadAtCursor` | src/libQts/QtsDvdMedia.cpp:446-481 | one read at the cursor: good sectors are delivered; SkipBadSectors passes a bad sector without delivering it, ReadBadSectorsAsZero delivers one zero sector, within the retry budget; otherwise -1 and the sector is bad |
| `DvdMedia.Placeholder` | src/libQts/QtsDvdMedia.cpp:294-307 | a placeholder has no name and covers exactly the hole it fills |
| `DvdMedia.FillHoles` | src/libQts/QtsDvdMedia.cpp:291-307 | the placeholder loop yields the files with a placeholder in every hole and one up to the volume size |
| `DvdMedia.PlaceFile` | src/libQts/QtsDvdMedia.cpp:293-302 | one turn of the placeholder loop keeps the layout being built equal to its specification |
| `DvdMedia.FillChained` | src/libQts/QtsDvdMedia.cpp:291-307 | filling the holes between disjoint files gives a gap-free run of files |
| `DvdMedia.LayoutGapFree` | src/libQts/QtsDvdMedia.cpp:287-307 | after opening, the layout runs from sector 0 without a gap to the volume size or the end of the last file, whichever is further |
| `DvdMedia.ChainedCovers` | src/libQts/QtsDvdMedia.cpp:345-354 | every sector of a gap-free layout is found in one of its files |
| `DvdMedia.FillKeepsFiles` | src/libQts/QtsDvdMedia.cpp:291-307 | the placeholders only fill holes: the named files are the files, in order |
| `DvdMedia.LayoutKeepsFiles` | src/libQts/QtsDvdMedia.cpp:287-307 | the named files of the layout are the sorted files read from the directory tree |
| `DvdMedia.InsertSorted` | src/libQts/QtsDvdMedia.cpp:289 | inserting a file into a list sorted by start sector keeps it sorted and adds exactly that file |
| `DvdMedia.SortByStartSorted` | src/libQts/QtsDvdMedia.cpp:289 | the sorted list is ordered by start sector and is a permutation of the files |
| `DvdMedia.BeforeVersionCuts` | src/libQts/QtsDvdMedia.cpp:535 | the name kept is the prefix of the record name before the first ';' |
| `DvdMedia.RecordsBound` | src/libQts/QtsDvdMedia.cpp:521-565 | each directory record takes at least 34 bytes, so the record loop ends |
| `DvdMedia.ReadRecords` | src/libQts/QtsDvdMedia.cpp:521-565 | the record loop yields the records of the directory data, in order |
| `DvdMedia.NextRecord` | src/libQts/QtsDvdMedia.cpp:521-565 | one turn of the record loop takes the record at the index and moves strictly forward |
| `DvdMedia.DirSectorCountCovers` | src/libQts/QtsDvdMedia.cpp:512-513 | the sectors read for a directory hold its whole size |
| `DvdMedia.ListingAsWritten` | src/libQts/QtsDvdMedia.cpp:514-517 | as written, the directory read is rejected only when readSectors returns 0 |
| `DvdMedia.Listing` | src/libQts/QtsDvdMedia.cpp:512-565 | corrected: the directory is rejected iff the read fails or delivers fewer sectors than the directory spans; otherwise its records are read from the data |
| `DvdMedia.ListingRefines` | src/libQts/QtsDvdMedia.cpp:514-517 | the corrected test agrees with the written one on every read it accepts, and only adds the failed and short reads to the rejections |
| `DvdMedia.UnreadDirectoryLooksEmpty` | src/libQts/QtsDvdMedia.cpp:514-517 | as written, a directory whose read returned -1 passes as empty; the corrected test rejects it |
| `DvdMedia.VtsInformationFileNumber` | src/libQts/QtsDvdMedia.cpp:644-653 | the result is -1 or a number 0..99, and a number only for a 12-character file name |
| `DvdMedia.VtsNameRoundTrip` | src/libQts/QtsDvdMedia.cpp:600-653 | the information file name built for a title set 0..99 reads back as that number, any other number's name as -1 |
| `DvdMedia.Arg2Facts` | src/libQts/QtsDvdMedia.cpp:600-604 | the two-digit text of -9..99 is two characters without blanks, and qtlToInt reads back 0..99 and rejects the negatives |
| `DvdMedia.VtsOnlyInVideoTs` | src/libQts/QtsDvdMedia.cpp:560-563 | no title set information file is counted outside VIDEO_TS of the root |
| `DvdMedia.VtsAtMostFiles` | src/libQts/QtsDvdMedia.cpp:560-563 | the counted title set files are files of the tree |
| `DvdMedia.PrimaryOf` | src/libQts/QtsDvdMedia.cpp:256-270 | the primary volume descriptor gives the volume size at 80, and the root directory only when its record at 156 is 34 bytes long |
| `DvdMedia.TerminatorFirst` | src/libQts/QtsDvdMedia.cpp:252-255 | a terminator as first descriptor means no primary volume descriptor |
| `DvdMedia.ScanFindsPrimary` | src/libQts/QtsDvdMedia.cpp:242-271 | a primary descriptor found is one of the 8 sectors scanned, readable, with the CD001 identifier and type 1 |
| `DvdMedia.SingleRead` | src/libQts/QtsDvdMedia.cpp:242 | one sector asked without bad-sector tolerance is read and delivered, or it is bad and the cursor does not move |
| `DvdMedia.EntriesAppend` | src/libQts/QtsDvdMedia.cpp:521-565 | one more directory entry adds its files, its counted title set files and its depth |
| `DvdMedia.DiscRunReadable` | src/libQts/QtsDvdMedia.cpp:511-517 | the sectors of a directory are delivered exactly when every one of them is readable, and then they are their contents |
| `DvdMedia.GatheredNoBad` | src/libQts/QtsDvdMedia.cpp:446-475 | with no bad sector passed, a read that stops on bad sectors gathers exactly the contents of the sectors passed |
| `DvdMedia.WholeDirectoryRead` | src/libQts/QtsDvdMedia.cpp:511-517 | a directory read whole without a bad sector yields the listing the disc holds for it |
| `DvdMedia.ReadFromReadable` | src/libQts/QtsDvdMedia.cpp:497-517 | a directory read from the disc lies within 256 levels and has every one of its sectors readable: an unreadable directory sector fails the walk |
| `DvdMedia.ReadFromUnique` | src/libQts/QtsDvdMedia.cpp:497-568 | the disc determines the tree: two directories with the same path, start and size read from the disc at the same depth and cursor are equal, so the walk can return only the tree the disc holds |
| `DvdMedia.EntriesUnique` | src/libQts/QtsDvdMedia.cpp:521-565 | the entries of the same records, each subdirectory read from the disc, are the same entries |
| `DvdMedia.ReadFromAnyCursor` | src/libQts/QtsDvdMedia.cpp:511-514 | a directory with a non-negative start sector is read the same whatever the cursor, so the root is read independently of where the volume scan left the cursor |
| `DvdMedia.WalkAppend` | src/libQts/QtsDvdMedia.cpp:521-565 | the walk of one more entry continues from where the walk of the entries before it leaves the cursor |
| `DvdMedia.SubsReadAppend` | src/libQts/QtsDvdMedia.cpp:521-565 | one more entry keeps the tree read from the disc exactly when its own tree, if it is a directory, is read from where the walk before it ends |
| `DvdMedia.SubsReadPrefix` | src/libQts/QtsDvdMedia.cpp:521-565 | every prefix of entries whose subdirectories are read from the disc is itself read from the disc, from the same cursor |
| `DvdMedia.TreeHeld` | src/libQts/QtsDvdMedia.cpp:497-568 | a tree the disc holds lies within 256 levels, its listing is readable, and the disc holds the entries of that listing from where the directory sectors end |
| `DvdMedia.TreeNotHeld` | src/libQts/QtsDvdMedia.cpp:497-568 | each way the walk of a directory fails (deeper than 256, a listing sector unreadable, the entries not held) shows the disc holds no tree for it |
| `DvdMedia.EntryHeldTree` | src/libQts/QtsDvdMedia.cpp:544-553 | a subdirectory record whose entry the disc holds: the disc holds the tree of that subdirectory |
| `DvdMedia.NextEntryHeld` | src/libQts/QtsDvdMedia.cpp:521-565 | entry i of entries the disc holds is its entry for record i, held from where the walk of the entries before it ends |
| `DvdMedia.EntriesHeldNext` | src/libQts/QtsDvdMedia.cpp:521-565 | when the disc holds the entries of all the records, a walk that has read the first i of them finds the entry of record i held where it stands |
| `DvdMedia.EntriesNotHeld` | src/libQts/QtsDvdMedia.cpp:521-565 | a record whose entry is not held where the walk stands shows the disc does not hold the entries of the records |
| `DvdMedia.OpenableHolds` | src/libQts/QtsDvdMedia.cpp:280-282 | an openable volume holds the tree of its root directory |
| `DvdMedia.OpenableLayout` | src/libQts/QtsDvdMedia.cpp:287-323 | the root tree of an openable volume lays out with a file at sector 0, and the disc has a sector 0, so the final seek succeeds |
| `DvdMedia.OpenableAnyCursor` | src/libQts/QtsDvdMedia.cpp:511-514 | whether a volume whose root start sector is not negative can be opened does not depend on the cursor |
| `DvdMediaClass.Media.constructor` | src/libQts/QtsDvdMedia.cpp:75-94 | a new object has no device, no media, no file and the cursor at 0 |
| `DvdMediaClass.Media.Close` | src/libQts/QtsDvdMedia.cpp:106-127 | close forgets the media and releases the device; the title set count is kept |
| `DvdMediaClass.Media.SeekSector` | src/libQts/QtsDvdMedia.cpp:331-376 | the seek fails without a device, for a negative position, or once open for a position at or beyond the volume size or in no file, and then nothing changes; otherwise the cursor and current file move there |
| `DvdMediaClass.Media.ReadSectors` | src/libQts/QtsDvdMedia.cpp:383-490 | without a device or after a failed seek the result is -1; otherwise the read loop from the position delivers at most count sectors, never past the volume size |
| `DvdMediaClass.Media.ScanVolumeDescriptors` | src/libQts/QtsDvdMedia.cpp:234-272 | the scan reads at most 8 descriptors from sector 16, one at a time without bad-sector tolerance, and finds the primary descriptor as specified |
| `DvdMediaClass.Media.ReadDirectoryStructure` | src/libQts/QtsDvdMedia.cpp:497-568 | corrected (see Findings): a success means the directory tree returned is the one the disc holds (`DvdMedia.ReadFrom`: every sector of each directory readable, its entries those of its records one for one, each subdirectory read in turn one level deeper), and the cursor ends where the walk leaves it; a directory whose sectors cannot all be read fails the walk, as does recursion deeper than 256; conversely, when the disc holds a tree for the directory (`DvdMedia.HoldsTree`) the walk succeeds; a success appends every file of the tree and counts the VTS_nn_0.IFO files of VIDEO_TS in the root |
| `DvdMediaClass.Media.ReadListing` | src/libQts/QtsDvdMedia.cpp:511-517 | the directory sectors are read from its start sector, or from the cursor when that is negative; the read succeeds exactly when the disc has the listing (`DvdMedia.DiscListing` is Some, i.e. every sector of the directory is readable), then delivers that listing and leaves the cursor just past the directory |
| `DvdMediaClass.Media.ReadEntries` | src/libQts/QtsDvdMedia.cpp:521-565 | the record loop yields one entry per record, in order (`DvdMedia.EntriesOf`), each subdirectory being the tree the disc holds from where the walk of the entries before it leaves the cursor; it succeeds whenever the disc holds such entries (`DvdMedia.HoldsEntries`); it appends their files and counts their title set files |
| `DvdMediaClass.Media.ReadEntry` | src/libQts/QtsDvdMedia.cpp:527-564 | the entry of one record: a file always succeeds, is appended and is counted when it is a title set information file of VIDEO_TS; a subdirectory is read from the disc (see ReadSubdirectory) and succeeds whenever the disc holds its entry (`DvdMedia.HoldsEntry`); the cursor ends where the walk of the entry leaves it |
| `DvdMediaClass.Media.ReadSubdirectory` | src/libQts/QtsDvdMedia.cpp:544-553 | a subdirectory record is explored one level deeper (VIDEO_TS of the root recognised in any case); a success gives the directory entry of that record whose tree is the one the disc holds, and the disc holding a tree for that record guarantees success |
| `DvdMediaClass.Media.OpenFromDevice` | src/libQts/QtsDvdMedia.cpp:213-324 | without a device, or without a primary descriptor and root directory, or without a readable tree, a positive volume size and a file at sector 0, the open fails and nothing is open; conversely, a device whose primary descriptor leads to a root tree the disc holds that lays out with a file at sector 0 (`DvdMedia.Openable`) opens; an open media has allFiles sorted and gap-free from sector 0 with placeholders up to the volume size, the cursor on sector 0 and the root directory the tree the disc holds (`DvdMedia.ReadFrom`) |
| `DvdMediaClass.Media.LocateRoot` | src/libQts/QtsDvdMedia.cpp:230-278 | the volume identifier and size are those of the primary descriptor when one is found |
| `DvdMediaClass.Media.LoadStructure` | src/libQts/QtsDvdMedia.cpp:280-323 | a success reads the tree from the root, the tree being the one the disc holds (`DvdMedia.ReadFrom` at depth 0), lays the files out and puts the cursor on sector 0; it succeeds whenever the volume is `DvdMedia.Openable` from the cursor |
| `DvdMediaClass.Media.ReadLevel` | src/libQts/QtsDvdMedia.cpp:497-568 | the steps of the walk of one directory, with the same results as ReadDirectoryStructure; a failure is the depth check, an unreadable listing, or entries the disc does not hold |
| `DvdMediaClass.Media.ReadNextEntry` | src/libQts/QtsDvdMedia.cpp:527-564 | one turn of the record loop, with the results of ReadEntry for the next record; a failure means the disc does not hold the entries of the records |
| `DvdMediaClass.Media.LayOut` | src/libQts/QtsDvdMedia.cpp:287-323 | the files are sorted by start sector with placeholders up to the volume size, the media is opened and the cursor put on sector 0; this succeeds exactly when the volume size is positive, the layout has a file at sector 0 and the disc has a sector 0 |
| `Sections.Cleared` | src/libQts/QtsSection.cpp:55-76 | an initialized or cleared section is invalid, empty and remembers its PID |
| `Sections.WithCrc` | src/libQts/QtsSection.cpp:215-221 | recomputing the CRC32 keeps every byte before the CRC field and makes the CRC field match them |
| `Sections.Initialize` | src/libQts/QtsSection.cpp:83-125 | corrected initialize always leaves a consistent section (invalid sections are empty) that remembers its PID |
| `Sections.InitializeAccepts` | src/libQts/QtsSection.cpp:83-125 | a content is accepted iff 3 <= size <= 4096, the 12-bit length is size - 3 and, for a long header, the section number is at most the last one and, under Check, the CRC32 matches; an accepted section holds the content, with a fresh CRC32 under Compute |
| `Sections.InitializedPayloadFits` | src/libQts/QtsSection.cpp:83-125 | every accepted section has its payload inside its data |
| `Sections.ShortLongSectionAccepted` | src/libQts/QtsSection.cpp:98-103 | as written, the 3-byte content [0x00, 0x80, 0x00], whose header claims a long section, is accepted and then read as a long section; the corrected initialize rejects it |
| `Sections.ReloadShort` | src/libQts/QtsSection.cpp:132-145 | a short section is built iff its header and payload fit in 4096 bytes |
| `Sections.ReloadLong` | src/libQts/QtsSection.cpp:152-181 | a long section is refused for a section number above the last, a version above 31 or a payload too big |
| `Sections.ShortSectionRoundTrip` | src/libQts/QtsSection.cpp:132-145 | a short section built by reload reads back its table id, private flag and payload, and initialize accepts its bytes unchanged under every validation mode |
| `Sections.LongSectionRoundTrip` | src/libQts/QtsSection.cpp:152-181 | a long section built by reload reads back every header field and its payload, and initialize accepts its bytes unchanged with its CRC32 checked |
| `Sections.FlagsAndLengthFields` | src/libQts/QtsSection.cpp:173-176 | the flags-and-length word carries back the long and private flags and the 12-bit length |
| `Sections.VersionByteFields` | src/libQts/QtsSection.cpp:178 | the version byte carries back the 5-bit version and current_next_indicator |
| `Sections.LongBodyFields` | src/libQts/QtsSection.cpp:172-180 | the long section body holds each field at its offset |
| `Sections.RecomputeCrc` | src/libQts/QtsSection.cpp:215-221 | recomputing the CRC32 keeps the section consistent |
| `Sections.RecomputeKeepsFields` | src/libQts/QtsSection.cpp:215-221 | recomputing the CRC32 changes no header field and no payload byte, and afterwards the CRC32 of a long section matches |
| `Sections.PatchVersionBits` | src/libQts/QtsSection.cpp:238-246 | the version lands in bits 1..5 and bit 0 and bits 6..7 are kept |
| `Sections.SetVersionOnlyVersion` | src/libQts/QtsSection.cpp:238-246 | setVersion acts on long sections only and changes only the version, which reads back as its low five bits |
| `Sections.SetIsCurrentOnlyCurrent` | src/libQts/QtsSection.cpp:248-256 | setIsCurrent acts on long sections only and changes only current_next_indicator |
| `Sections.SetSectionNumbers` | src/libQts/QtsSection.cpp:258-276 | setSectionNumber and setLastSectionNumber write their byte of a long section and nothing else |
| `Sections.SetTableIdExtensionOnlyExtension` | src/libQts/QtsSection.cpp:228-236 | setTableIdExtension writes bytes 3 and 4 of a long section and nothing else |
| `SectionClass.Section.constructor` | src/libQts/QtsSection.cpp:69-76 | a new section is invalid, empty and from the null PID |
| `SectionClass.Section.Reset` | src/libQts/QtsSection.cpp:69-76 | initialize(pid) forgets the content and remembers the PID |
| `SectionClass.Section.Clear` | src/libQts/QtsSection.cpp:55-62 | clear() leaves an invalid section from the null PID |
| `SectionClass.Section.InitializeFrom` | src/libQts/QtsSection.cpp:83-125 | the new state is the corrected initialize of the content |
| `SectionClass.Section.ReloadShort` | src/libQts/QtsSection.cpp:132-145 | the bytes built one append at a time are the short section of the value model, which reads back its table id |
| `SectionClass.Section.ReloadLong` | src/libQts/QtsSection.cpp:152-181 | the bytes built one append at a time are the long section of the value model, which reads back its table id and private flag |
| `SectionClass.Section.RecomputeCrc32` | src/libQts/QtsSection.cpp:215-221 | the new state is the section with its CRC32 recomputed |
| `SectionClass.Section.SetTableIdExtension` | src/libQts/QtsSection.cpp:228-236 | the new state is the value model's setTableIdExtension |
| `SectionClass.Section.SetVersion` | src/libQts/QtsSection.cpp:238-246 | the new state is the value model's setVersion |
| `SectionClass.Section.SetIsCurrent` | src/libQts/QtsSection.cpp:248-256 | the new state is the value model's setIsCurrent |
| `SectionClass.Section.SetSectionNumber` | src/libQts/QtsSection.cpp:258-266 | the new state is the value model's setSectionNumber |
| `SectionClass.Section.SetLastSectionNumber` | src/libQts/QtsSection.cpp:268-276 | the new state is the value model's setLastSectionNumber |
| `Tables.CountMissingUpdate` | src/libQts/QtsTable.cpp:288-302 | filling an empty slot lowers the missing count by one, replacing a section keeps it |
| `Tables.CountMissingAppend` | src/libQts/QtsTable.cpp:275-276 | the missing count of a table grown by empty slots grows by their number |
| `Tables.CountMissingEmpty` | src/libQts/QtsTable.cpp:252-258 | a table of n empty slots misses n sections |
| `Tables.RaiseOne` | src/libQts/QtsTable.cpp:279-283 | a section given the table's new last section number still belongs in its slot, its payload unchanged |
| `Tables.TotalSizeBounds` | src/libQts/QtsTable.cpp:214-223 | the bytes of the present sections are at least a short header and at most 4096 per section |
| `Tables.Table.constructor` | src/libQts/QtsTable.cpp:41-50 | a new table is empty and invalid, with table id 0xFF |
| `Tables.Table.Clear` | src/libQts/QtsTable.cpp:198-207 | clear() makes the table empty and invalid again |
| `Tables.Table.SectionAt` | src/libQts/QtsTable.cpp:230-233 | the section of a slot inside the table, valid and carrying that section number; none outside the table or in an empty slot |
| `Tables.Table.TotalSize` | src/libQts/QtsTable.cpp:214-223 | the sum of the sizes of the present valid sections |
| `Tables.Table.RaiseLastSectionNumbers` | src/libQts/QtsTable.cpp:279-283 | every present section is given the new last section number, with a new CRC32, and stays in its slot |
| `Tables.Table.Admit` | src/libQts/QtsTable.cpp:243-285 | the section proceeds iff it is valid and, for a table already started, has the table's id, extension and version and, without grow, a section number and last section number that fit; a refusal changes nothing |
| `Tables.Table.AdmitMore` | src/libQts/QtsTable.cpp:259-285 | the same checks for a table that already has its first section |
| `Tables.Table.Fit` | src/libQts/QtsTable.cpp:267-285 | a section announcing fewer sections gets the table's last section number; one announcing more enlarges the table with empty slots and raises the missing count by their number |
| `Tables.Table.Start` | src/libQts/QtsTable.cpp:250-258 | the first section sets the table id, extension, version and PID, and missingCount = lastSectionNumber + 1 |
| `Tables.Table.Enlarge` | src/libQts/QtsTable.cpp:274-276 | the table grows with empty slots up to the new last section number and misses them |
| `Tables.Table.Place` | src/libQts/QtsTable.cpp:287-306 | the section fills its slot, or replaces the one there only with replace; the table is valid iff no section is missing, also after a refusal (corrected) |
| `Tables.Table.PlaceAsWritten` | src/libQts/QtsTable.cpp:287-306 | as written, a refused section leaves the table, and its validity flag, as they were |
| `Tables.Table.AddSection` | src/libQts/QtsTable.cpp:241-307 | an invalid section, or one with a mismatched tid, tid extension or version, is rejected with nothing changed; with replace off a present section is refused; after any call the table is valid iff missingCount == 0 and missingCount >= 0; present sections stay present |
| `Tables.Table.AddSectionAsWritten` | src/libQts/QtsTable.cpp:241-307 | as written: the same admission and placement, but a refusal after growing leaves the validity flag stale |
| `Tables.StaleValidityExample` | src/libQts/QtsTable.cpp:272-297 | as written, a complete one-section table offered its section 0 again announcing two sections, with replace off and grow on, refuses it yet stays valid with one slot empty |
| `Descriptors.DeclaredPds` | src/libQts/QtsDescriptorList.cpp:72-76 | the specifier a private_data_specifier_descriptor declares is a 32-bit value, 0 when its payload is shorter than four bytes |
| `Descriptors.LastPdsIndex` | src/libQts/QtsDescriptorList.cpp:77-84 | the closest private_data_specifier_descriptor at or before a position: it is one, and none lies between it and the position |
| `Descriptors.PdsIsLastDeclared` | src/libQts/QtsDescriptorList.cpp:70-87 | in a list built by append, each element carries the specifier declared by the closest private_data_specifier_descriptor before it, or 0 when there is none |
| `Descriptors.AppendInherits` | src/libQts/QtsDescriptorList.cpp:70-87 | appending an element with the specifier append computes keeps every element's specifier the inherited one |
| `Descriptors.AppendAll` | src/libQts/QtsDescriptorList.cpp:114-127 | appending descriptors one by one keeps the old list as a prefix and adds one element per descriptor |
| `Descriptors.AppendAllSnoc` | src/libQts/QtsDescriptorList.cpp:118-124 | one more turn of the append loop adds one element with the inherited specifier |
| `Descriptors.AppendAllInherits` | src/libQts/QtsDescriptorList.cpp:114-127 | appending descriptors one by one keeps the list consistent and adds exactly those descriptors, in order |
| `Descriptors.PdsDescriptor` | src/libQts/QtsDescriptorList.cpp:160-165 | the private_data_specifier_descriptor built for a 32-bit specifier is valid, has the specifier tag and declares that specifier |
| `Descriptors.ParseSplits` | src/libQts/QtsDescriptorList.cpp:114-127 | reading a memory area splits it into well-formed descriptors and a remainder too short to hold the next one, losing no byte |
| `Descriptors.ParseConcat` | src/libQts/QtsDescriptorList.cpp:114-127 | reading back the bytes of well-formed descriptors gives the same descriptors and consumes every byte |
| `Descriptors.SerializeEnd` | src/libQts/QtsDescriptorList.cpp:288-297 | the index serialize stops at lies between the start index and the end of the list |
| `Descriptors.SerializeEndBounds` | src/libQts/QtsDescriptorList.cpp:288-297 | serialize writes whole descriptors only, never more bytes than the room, and stops at the end of the list or at the first descriptor that does not fit in the room left |
| `Descriptors.SerializeAllIff` | src/libQts/QtsDescriptorList.cpp:288-297 | every descriptor from the start index on is written if and only if their bytes fit in the room |
| `Descriptors.LengthWord` | src/libQts/QtsDescriptorList.cpp:346-348 | the length word with its four reserved bits set is a 16-bit value |
| `Descriptors.ListLength` | src/libQts/QtsDescriptorList.cpp:141-142 | the length read from a length word keeps its 12 significant bits |
| `Descriptors.LengthWordFields` | src/libQts/QtsDescriptorList.cpp:346-348 | a length below 4096 is written as 0xF000 plus the length and reads back unchanged |
| `Descriptors.LengthFieldReads` | src/libQts/QtsDescriptorList.cpp:134-153 | a big-endian length word in front of any body reads back as the body's length |
| `Descriptors.LengthSerializeRoundTrip` | src/libQts/QtsDescriptorList.cpp:331-351 | a list written with its length field reads back: the 12-bit length gives the descriptors' bytes and parsing them gives the descriptors |
| `Descriptors.NextPdsIndex` | src/libQts/QtsDescriptorList.cpp:198-212 | the search of prepareRemovePds: the first private_data_specifier_descriptor after a position, or the end of the list, with none before it |
| `Descriptors.Reassigned` | src/libQts/QtsDescriptorList.cpp:214-218 | the elements a removed private_data_specifier_descriptor covered take the specifier in force before it; the descriptors are the same |
| `Descriptors.RemoveByIndexInherits` | src/libQts/QtsDescriptorList.cpp:228-243 | removeByIndex removes exactly the one descriptor when it succeeds, changes nothing when it fails, and keeps every element's specifier the inherited one |
| `Descriptors.RemovePlainInherits` | src/libQts/QtsDescriptorList.cpp:240-241 | removing a descriptor other than a private_data_specifier_descriptor keeps the list consistent and the other descriptors in order |
| `Descriptors.RemovePdsInherits` | src/libQts/QtsDescriptorList.cpp:191-221 | removing a private_data_specifier_descriptor that prepareRemovePds allows, after it reassigns the specifiers, keeps the list consistent and the other descriptors in order |
| `Descriptors.RemoveMatchingSpec` | src/libQts/QtsDescriptorList.cpp:250-267 | removeByTag counts what it removes, keeps the elements before the position, keeps the list consistent, and leaves no matching descriptor but private_data_specifier_descriptors still needed |
| `Descriptors.WithoutOrphans` | src/libQts/QtsDescriptorList.cpp:174-184 | removing the private descriptors outside any specifier never lengthens the list |
| `Descriptors.WithoutOrphansSpec` | src/libQts/QtsDescriptorList.cpp:174-184 | after the intended removal no private descriptor outside a specifier is left and every other element is kept |
| `Descriptors.SweepSkipsSecondOrphan` | src/libQts/QtsDescriptorList.cpp:177-182 | with two private descriptors outside a specifier in a row, the loop as written removes the first and leaves the second |
| `Descriptors.SerializeBlockTruncates` | src/libQts/QtsDescriptorList.cpp:313-322 | serialize into a block as written shrinks the block to the old size plus the room left: one 6-byte descriptor into an empty block of at most 10 bytes leaves 4 bytes, the descriptor cut short |
| `DescriptorLists.CopyBytes` | src/libQts/QtsDescriptorList.cpp:292 | the copy puts the bytes at the address and changes nothing else in the buffer |
| `DescriptorLists.DescriptorList.constructor` | src/libQts/QtsDescriptorList.h:51-54 | a new list is empty |
| `DescriptorLists.DescriptorList.Clear` | src/libQts/QtsDescriptorList.h:216-219 | clear leaves the list empty |
| `DescriptorLists.DescriptorList.Append` | src/libQts/QtsDescriptorList.cpp:63-89 | a null or invalid descriptor is refused and the list unchanged; otherwise it goes at the end with the specifier it declares or the one in force |
| `DescriptorLists.DescriptorList.AppendList` | src/libQts/QtsDescriptorList.h:137-140 | the other list's elements follow, with the specifiers they had there |
| `DescriptorLists.DescriptorList.AppendArea` | src/libQts/QtsDescriptorList.cpp:114-127 | descriptors are read while a whole one remains; the result is true exactly when no byte is left over, and a negative size reads nothing |
| `DescriptorLists.DescriptorList.AppendOne` | src/libQts/QtsDescriptorList.h:171-175 | the one descriptor at the address, its size taken from its length byte, is appended as append does |
| `DescriptorLists.DescriptorList.AppendFromLength` | src/libQts/QtsDescriptorList.cpp:134-153 | refused with nothing consumed when the length field or the list it announces does not fit; otherwise the position and size move past the list and its descriptors are read |
| `DescriptorLists.DescriptorList.AppendPrivateDataSpecifier` | src/libQts/QtsDescriptorList.cpp:160-165 | a descriptor for the specifier goes at the end unless it is 0 or already in force there; afterwards a non-zero specifier is in force at the end |
| `DescriptorLists.DescriptorList.RemoveInvalidPrivateDescriptorsAsWritten` | src/libQts/QtsDescriptorList.cpp:174-184 | the loop as written, which moves on after a removal and so skips the element that took the removed one's place |
| `DescriptorLists.DescriptorList.RemoveInvalidPrivateDescriptors` | src/libQts/QtsDescriptorList.cpp:174-184 | every private descriptor outside a specifier goes, the others stay in order, the count is the number removed, and a consistent list stays consistent |
| `DescriptorLists.DescriptorList.PrepareRemovePds` | src/libQts/QtsDescriptorList.cpp:191-221 | succeeds exactly when no private descriptor comes before the next private_data_specifier_descriptor; then the covered elements take the previous specifier, otherwise nothing changes |
| `DescriptorLists.DescriptorList.RemoveByIndex` | src/libQts/QtsDescriptorList.cpp:228-243 | refused for an index out of range or a private_data_specifier_descriptor still needed; otherwise the element goes; a consistent list stays consistent |
| `DescriptorLists.DescriptorList.RemoveByTag` | src/libQts/QtsDescriptorList.cpp:250-267 | the list and count are those of RemoveMatching, whose properties RemoveMatchingSpec states |
| `DescriptorLists.DescriptorList.Search` | src/libQts/QtsDescriptorList.cpp:386-394 | the first matching element at or after the start index, none matching before it, or the size of the list (or the start index past it) when there is none |
| `DescriptorLists.DescriptorList.BinarySize` | src/libQts/QtsDescriptorList.cpp:274-281 | the size is the number of bytes of all descriptors one after the other |
| `DescriptorLists.DescriptorList.Serialize` | src/libQts/QtsDescriptorList.cpp:288-297 | the whole descriptors up to the index SerializeEnd gives are copied at the address, which moves past them while the room shrinks by as much |
| `DescriptorLists.DescriptorList.LengthSerialize` | src/libQts/QtsDescriptorList.cpp:331-351 | nothing when fewer than 2 bytes are free; otherwise the length word of what serialize writes, then those bytes |
| `DescriptorLists.DescriptorList.SerializeToBlockAsWritten` | src/libQts/QtsDescriptorList.cpp:304-324 | the block as written: the old content, the descriptors written, cut to the old size plus the room left |
| `DescriptorLists.DescriptorList.SerializeToBlock` | src/libQts/QtsDescriptorList.cpp:304-324 | nothing when the block is already full; otherwise the block is the old content followed by exactly the descriptors that fit below the maximum |
| `DescriptorLists.DescriptorList.LengthSerializeToBlockAsWritten` | src/libQts/QtsDescriptorList.cpp:358-378 | the block as written: cut to the old size plus the room left after the length field and descriptors |
| `DescriptorLists.DescriptorList.LengthSerializeToBlock` | src/libQts/QtsDescriptorList.cpp:358-378 | nothing unless more than the length field fits; otherwise the old content, the length word and exactly the descriptors that fit |
| `DescriptorLists.NewBlock` | src/libQts/QtsDescriptorList.cpp:313 | the enlarged block holds the content followed by zero bytes up to the maximum |
| `Teletext.Unham84` | src/Qts/QtsTeletextDemux.cpp:126-130 | the decoded Hamming 8/4 byte is a 4-bit value, and 0 for a byte the table marks as not correctable |
| `Teletext.Syndrome` | src/Qts/QtsTeletextDemux.cpp:134-142 | the six parity tests A-F of a 24/18 word fit six bits |
| `Teletext.Data18` | src/Qts/QtsTeletextDemux.cpp:154 | the 18 data bits gathered from a 24/18 word fit 18 bits |
| `Teletext.Unham2418` | src/Qts/QtsTeletextDemux.cpp:132-155 | the result is 0xFFFFFFFF if and only if the tests report a double error; otherwise it is the 18 data bits of the word with the single wrong bit inverted, so the two outcomes never meet |
| `Teletext.PageBcdToBinary` | src/Qts/QtsTeletextDemux.cpp:162-165 | the number written by three BCD nibbles lies between 0 and 1665 |
| `Teletext.PageBinaryToBcd` | src/Qts/QtsTeletextDemux.cpp:167-170 | a non-negative page number becomes three BCD digits, one per nibble |
| `Teletext.BinaryBcdRoundTrip` | src/Qts/QtsTeletextDemux.cpp:162-170 | a page number survives the trip to BCD and back modulo 1000, so 0-999 come back unchanged |
| `Teletext.BcdOfDigits` | src/Qts/QtsTeletextDemux.cpp:162-165 | three decimal digits in BCD read back as their number |
| `Teletext.BcdBinaryRoundTrip` | src/Qts/QtsTeletextDemux.cpp:162-170 | a BCD page number survives the trip to binary and back |
| `Teletext.AddressOf` | src/Qts/QtsTeletextDemux.cpp:332-337 | the magazine of a packet address lies in 1-8 (0 standing for 8) and its row below 32, both taken from the two decoded address nibbles |
| `Teletext.ReverseByteBits` | src/Qts/QtsTeletextDemux.cpp:95-112 | the REVERSE_8 entry of a byte has the byte's 8 bits in the opposite order, bit i moved to bit 7 - i |
| `Teletext.ReverseByteTwice` | src/Qts/QtsTeletextDemux.cpp:305-307 | reversing the bits of a byte twice gives the byte back |
| `Teletext.Reversed` | src/Qts/QtsTeletextDemux.cpp:305-307 | a data unit with its bits reversed has the same length and each byte reversed |
| `Teletext.ReversedTwice` | src/Qts/QtsTeletextDemux.cpp:305-307 | reversing the bits of a data unit twice gives it back |
| `Teletext.ReverseBytes` | src/Qts/QtsTeletextDemux.cpp:304-307 | the copy loop fills a new packet buffer with the data unit, the bits of each byte reversed |
| `Teletext.DataUnitsRoundTrip` | src/Qts/QtsTeletextDemux.cpp:290-314 | walking the encoding of data units (id, size, bytes) gives them back, then the units of what follows |
| `Teletext.DataUnitsCons` | src/Qts/QtsTeletextDemux.cpp:292-313 | the walk reads one encoded data unit, then goes on after it |
| `Teletext.PacketsKept` | src/Qts/QtsTeletextDemux.cpp:298-309 | every packet kept is a 44-byte unit of id 2 or 3 that was among the data units, with its bits reversed |
| `Teletext.PacketsOfTeletextUnits` | src/Qts/QtsTeletextDemux.cpp:298-309 | units that all carry Teletext packets are all kept, in order, their bits reversed |
| `Teletext.PesRoundTrip` | src/Qts/QtsTeletextDemux.cpp:277-314 | a PES payload made of an EBU data_identifier and Teletext data units yields one packet per unit, in order, its bits reversed |
| `Teletext.WalkStep` | src/Qts/QtsTeletextDemux.cpp:290-314 | one step of the walk: what the unit at an offset contributes, then the walk after it |
| `Teletext.StepPacketsFilter` | src/Qts/QtsTeletextDemux.cpp:299-309 | a unit contributes a packet exactly when it fits the payload, has 44 bytes and id 2 or 3 |
| `Teletext.WalkInvariant` | src/Qts/QtsTeletextDemux.cpp:290-314 | the invariant of the data-unit loop survives one turn |
| `Teletext.WalkEnd` | src/Qts/QtsTeletextDemux.cpp:290 | the walk ends with fewer than two bytes left |
| `Teletext.WalkFromStart` | src/Qts/QtsTeletextDemux.cpp:281-287 | after a valid data_identifier the walk starts at the next byte |
| `Teletext.WalkDataUnits` | src/Qts/QtsTeletextDemux.cpp:289-314 | the data-unit loop returns the Teletext packets of the walk from the byte after the data_identifier |
| `Teletext.TeletextDemux.constructor` | src/Qts/QtsTeletextDemux.cpp:177-186 | a new demux has no PID context |
| `Teletext.TeletextDemux.HandlePesPacket` | src/Qts/QtsTeletextDemux.cpp:264-315 | the PID gets an empty context if it had none, other contexts are unchanged, and the packets found are those of the payload: none without a valid data_identifier, otherwise one per Teletext data unit, in order, bits reversed |
| `Teletext.TeletextDemux.CountFrame` | src/Qts/QtsTeletextDemux.cpp:496-515 | the page gets an entry in its PID's context, a page with text counts one more frame modulo 2^32, and nothing else changes |
| `Teletext.TeletextDemux.FrameCount` | src/Qts/QtsTeletextDemux.cpp:700-721 | the frames of the page, looked up in BCD, on the given PID; with the null PID the count on the first PID, by increasing value, that has frames of it; 0 when there are none |
| `Teletext.Least` | src/Qts/QtsTeletextDemux.cpp:713 | the first PID a QMap iteration meets is the least of the set |
| `QtlVersion.FieldsShape` | src/libQtl/QtlVersion.cpp:133 | splitting on '-' and '.' skipping empty parts gives fields that are never empty and never hold a separator |
| `QtlVersion.DropNonDigits` | src/libQtl/QtlVersion.cpp:140 | once the leading non-digits are removed the text is empty or starts with a digit |
| `QtlVersion.BetaOf` | src/libQtl/QtlVersion.cpp:135-146 | the beta index is -1 without a beta field, otherwise an int from -1 up |
| `QtlVersion.ParseText` | src/libQtl/QtlVersion.cpp:124-158 | the parsed version keeps the text unless it is cleared; every value is a non-negative int and the beta index is at least -1; a beta field starts with an ASCII letter (see Left out) |
| `QtlVersion.Version.constructor` | src/libQtl/QtlVersion.cpp:42-47 | a new version is cleared: no values, beta -1, no text |
| `QtlVersion.Version.Clear` | src/libQtl/QtlVersion.cpp:59-64 | clear leaves no values, beta -1 and no text |
| `QtlVersion.Version.SetValues` | src/libQtl/QtlVersion.cpp:71-88 | any negative value leaves the version cleared and invalid; otherwise the values are kept and a negative beta becomes -1; there is no text any more |
| `QtlVersion.Version.SetText` | src/libQtl/QtlVersion.cpp:124-158 | the version becomes the one ParseText gives for the text, with ParseText's ASCII letter test (see Left out) |
| `QtlVersion.Version.Text` | src/libQtl/QtlVersion.cpp:95-117 | the original text when there is one, otherwise the dotted values followed by "-rc" and the beta index for a beta |
| `QtlVersion.Version.Less` | src/libQtl/QtlVersion.cpp:170-205 | the comparison loop gives the order VersionLess defines, which the Less* lemmas show is a strict total order |
| `QtlVersion.FieldValues` | src/libQtl/QtlVersion.cpp:150-157 | the loop over the fields succeeds exactly when every field is a non-negative int, and then gives their values |
| `QtlVersion.LessIrreflexive` | src/libQtl/QtlVersion.cpp:170-205 | no version comes before itself |
| `QtlVersion.LessAsymmetric` | src/libQtl/QtlVersion.cpp:170-205 | two versions are never each before the other |
| `QtlVersion.LessTotal` | src/libQtl/QtlVersion.cpp:165-205 | two versions that are not equal (same values, same beta) are ordered one way or the other |
| `QtlVersion.LessTransitive` | src/libQtl/QtlVersion.cpp:170-205 | the order is transitive |
| `QtlVersion.PrefixLess` | src/libQtl/QtlVersion.cpp:186-192 | a version comes before any longer version that starts with its values, whatever the betas |
| `QtlVersion.BetaBeforeRelease` | src/libQtl/QtlVersion.cpp:199-204 | with the same values a beta comes before the official release |
| `QtlVersion.FieldsOfVersion` | src/libQtl/QtlVersion.cpp:95-117 | the fields of a version's text are its values in decimal, then its beta field |
| `QtlVersion.BetaFieldValue` | src/libQtl/QtlVersion.cpp:138-142 | the beta field "rc" and digits reads back its index |
| `QtlVersion.TextRoundTrip` | src/libQtl/QtlVersion.cpp:95-158 | setText(text()) gives back the values and the beta index of a version built with setValues |
| `Hexa.Nibble` | src/Qtl/QtlHexa.cpp:56-67 | a character has a digit value exactly when it is a decimal or hexadecimal digit of either case |
| `Hexa.Pairs` | src/Qtl/QtlHexa.cpp:68-74 | the complete digit pairs give one byte each |
| `Hexa.DecodeAndAppend` | src/Qtl/QtlHexa.cpp:42-78 | the bytes appended are the complete digit pairs read before the first refused character, blanks (the `QChar::isSpace` set, Unicode separators included) skipped; the result is true exactly when every character is accepted and the digits pair up |
| `Hexa.Decode` | src/Qtl/QtlHexa.h:75-79 | the same into an emptied block |
| `Hexa.NibblesStop` | src/Qtl/QtlHexa.cpp:65-67 | a refused character hides everything after it |
| `Hexa.RefusedKeepsDecoded` | src/Qtl/QtlHexa.cpp:65-67 | a refused character ends the decoding: the bytes are those of the text before it and the result is false |
| `Hexa.BlanksIgnored` | src/Qtl/QtlHexa.cpp:53-55 | blanks anywhere do not change the digits read |
| `Hexa.PairsOdd` | src/Qtl/QtlHexa.cpp:74-77 | a trailing lone digit adds no byte |
| `Hexa.ByteText` | src/Qtl/QtlHexa.h:108-111 | a byte is written as two upper-case digits, high nibble first |
| `Hexa.HexaSingleLine` | src/Qtl/QtlHexa.cpp:117-129 | the one-line dump is the bytes as "XX" or "0xXX," items, separated by a space unless compact, with no line feed, and its length follows |
| `Hexa.SingleLineNibbles` | src/Qtl/QtlHexa.cpp:117-129 | the plain one-line dump holds only accepted characters and its digits are those of the bytes |
| `Hexa.PairsOfByteNibbles` | src/Qtl/QtlHexa.cpp:68-74 | the digit pairs of bytes are the bytes |
| `Hexa.DecodeSingleLine` | src/Qtl/QtlHexa.cpp:42-129 | decoding the plain or compact one-line dump succeeds and gives the bytes back |
| `DvdExtractionSession.SectorsHead` | src/QtlMovie/QtlMovieDvdExtractionSession.cpp:101 | the sectors of a queue are those of its head plus those of the rest |
| `DvdExtractionSession.ExistingExactly` | src/QtlMovie/QtlMovieDvdExtractionSession.cpp:113-119 | a name is listed as existing exactly when the file exists and some queued transfer writes it |
| `DvdExtractionSession.ExistingFiles` | src/QtlMovie/QtlMovieDvdExtractionSession.cpp:113-119 | the loop that lists the existing destination files gives exactly the existing names that some transfer writes |
| `DvdExtractionSession.CDiv` | src/QtlMovie/QtlMovieDvdExtractionSession.cpp:259 | the C++ division of a byte count by the sector size, truncating toward zero |
| `DvdExtractionSession.ExtractionSession.constructor` | src/QtlMovie/QtlMovieDvdExtractionSession.cpp:41-53 | a new session is not started, has an empty queue, zero totals and counts, and has emitted nothing |
| `DvdExtractionSession.ExtractionSession.AddFile` | src/QtlMovie/QtlMovieDvdExtractionSession.cpp:86-104 | after start nothing changes but the log; before, the transfer is queued and its sectors and one file are added to the totals, keeping the accounting invariant |
| `DvdExtractionSession.ExtractionSession.AskOverwriteOutput` | src/QtlMovie/QtlMovieDvdExtractionSession.cpp:111-145 | the files deleted are the existing destination files when there are none or the user confirms, and nothing otherwise; the outcome is true exactly in the first case |
| `DvdExtractionSession.ExtractionSession.DataPullProgressed` | src/QtlMovie/QtlMovieDvdExtractionSession.cpp:256-260 | one progress report: the sectors of the finished transfers plus the whole sectors of the current one, out of the total; nothing else changes |
| `DvdExtractionSession.ExtractionSession.Start` | src/QtlMovie/QtlMovieDvdExtractionSession.cpp:152-165 | refused once started and then nothing changes; otherwise the session is started and the first extraction begun, a failure to begin it completing the session with an error |
| `DvdExtractionSession.ExtractionSession.StartNextExtraction` | src/QtlMovie/QtlMovieDvdExtractionSession.cpp:172-221 | an empty queue completes the session with success; otherwise the head transfer is started and kept in the queue, or its failure to start is handled as its completion with an error |
| `DvdExtractionSession.ExtractionSession.Abort` | src/QtlMovie/QtlMovieDvdExtractionSession.cpp:228-249 | nothing when not started or nothing queued; otherwise every transfer is dropped but a head whose pull has started, which is asked to stop; with nothing left the session completes with an error; every file and sector stays accounted for |
| `DvdExtractionSession.ExtractionSession.DataPullCompleted` | src/QtlMovie/QtlMovieDvdExtractionSession.cpp:267-295 | the head transfer leaves the queue and its sectors and file are counted as done, progress is reported, and the next extraction starts after a success or the session completes with an error after a failure; when the next transfer cannot start, its own completion is handled first, so the error is emitted twice |
| `MovieInputFile.FrameSize` | src/QtlMovie/QtlMovieInputFile.cpp:551 | the frame size is a 32-bit int, and it is width times height whenever that product fits |
| `MovieInputFile.First` | src/QtlMovie/QtlMovieInputFile.cpp:561-598 | the first-match index of a kind of stream is -1 or a stream index |
| `MovieInputFile.FirstIsFirst` | src/QtlMovie/QtlMovieInputFile.cpp:561-598 | the first-match index finds the first stream of that kind, none before it, and -1 means there is none |
| `MovieInputFile.BestVideo` | src/QtlMovie/QtlMovieInputFile.cpp:549-558 | the selected video is -1 or a stream index and the largest frame size so far is at least -1 |
| `MovieInputFile.BestVideoIsLargest` | src/QtlMovie/QtlMovieInputFile.cpp:549-558 | the selected video is the first video stream with the largest frame size, and a video stream whose frame size is negative is never selected |
| `MovieInputFile.AudioChoiceIsAudio` | src/QtlMovie/QtlMovieInputFile.cpp:609-625 | the audio choice is an audio stream whenever there is one: an original soundtrack when there is one, else audio outside the audience languages, else audio not for the impaired, else the first audio |
| `MovieInputFile.SubtitleChoiceInAudience` | src/QtlMovie/QtlMovieInputFile.cpp:627-649 | the subtitle choice is a subtitle stream in an audience language or none; a forced one when the audio is in an audience language, and otherwise one whenever some subtitles are in an audience language |
| `MovieInputFile.ScanStreams` | src/QtlMovie/QtlMovieInputFile.cpp:537-607 | the loop over the streams leaves each tracker holding the largest video frame or the first stream of its kind |
| `MovieInputFile.VideoStep` | src/QtlMovie/QtlMovieInputFile.cpp:549-558 | a video stream larger than the largest so far becomes the selected video, keeping the trackers right |
| `MovieInputFile.AudioStep` | src/QtlMovie/QtlMovieInputFile.cpp:560-578 | an audio stream may become the first audio of each kind, keeping the trackers right |
| `MovieInputFile.SubtitleStep` | src/QtlMovie/QtlMovieInputFile.cpp:580-601 | subtitles in an audience language may become the first subtitles of each kind, keeping the trackers right |
| `MovieInputFile.InputFile.constructor` | src/QtlMovie/QtlMovieInputFile.cpp:46-76 | a new input file has its name and streams and no selected stream or external subtitles |
| `MovieInputFile.InputFile.SelectDefaultStreams` | src/QtlMovie/QtlMovieInputFile.cpp:520-656 | the selection is the largest video, the audio by priority and the subtitles for the audience, as the choice functions define them; nothing else changes |
| `MovieInputFile.InputFile.SelectedVideoStreamIndex` | src/QtlMovie/QtlMovieInputFile.cpp:663-666 | a stored index past the streams reads back as -1, any other as itself |
| `MovieInputFile.InputFile.SelectedAudioStreamIndex` | src/QtlMovie/QtlMovieInputFile.cpp:673-676 | a stored index past the streams reads back as -1, any other as itself |
| `MovieInputFile.InputFile.SelectedSubtitleStreamIndex` | src/QtlMovie/QtlMovieInputFile.cpp:683-686 | a stored index past the streams reads back as -1, any other as itself |
| `MovieInputFile.InputFile.IsIsoImage` | src/QtlMovie/QtlMovieInputFile.cpp:509-513 | a file is an ISO image when the suffix of its name, lowered, is "iso"; such a file name holds a dot |
| `MovieInputFile.IsoImageName` | src/QtlMovie/QtlMovieInputFile.cpp:509-513 | a file name ending in "." followed by a separator-free, dot-free extension is an ISO image exactly when that extension is "iso" in any mix of cases |
| `MovieInputFile.InputFile.StreamAt` | src/QtlMovie/QtlMovieInputFile.cpp:441-444 | a stream exactly for an index inside the list, and then the stream at it |
| `MovieInputFile.InputFile.SelectedSubtitleStreamInfo` | src/QtlMovie/QtlMovieInputFile.h:283-286 | a subtitle stream exactly when the selected index is inside the list |
| `MovieInputFile.InputFile.ExternalSubtitleFileName` | src/QtlMovie/QtlMovieInputFile.cpp:693-696 | the external subtitle file name only while no subtitle stream is selected, empty otherwise |
| `MovieInputFile.InputFile.SetSelectedVideoStreamIndex` | src/QtlMovie/QtlMovieInputFile.cpp:668-671 | the video index is stored and nothing else changes |
| `MovieInputFile.InputFile.SetSelectedAudioStreamIndex` | src/QtlMovie/QtlMovieInputFile.cpp:678-681 | the audio index is stored and nothing else changes |
| `MovieInputFile.InputFile.SetSelectedSubtitleStreamIndex` | src/QtlMovie/QtlMovieInputFile.cpp:688-691 | the subtitle index is stored and nothing else changes |
| `MovieInputFile.InputFile.SetExternalSubtitleFileName` | src/QtlMovie/QtlMovieInputFile.cpp:698-704 | the name is stored, and a non-empty one deselects the subtitle stream so that it reads back as the external subtitles |
| `MediaStreamInfo.NormalizeLanguage` | src/libQtl/QtlMediaStreamInfo.cpp:421-428 | the stored language is trimmed and lower-case and never "und": it is the trimmed lower-cased text, or empty |
| `MediaStreamInfo.NormalizeLanguageIdempotent` | src/libQtl/QtlMediaStreamInfo.cpp:421-428 | setting a language already set changes nothing |
| `MediaStreamInfo.SetTitle` | src/libQtl/QtlMediaStreamInfo.cpp:411-414 | the title is stored trimmed, unchanged when already trimmed, and nothing else changes |
| `MediaStreamInfo.SetCodecName` | src/libQtl/QtlMediaStreamInfo.cpp:416-419 | the codec name is stored trimmed, unchanged when already trimmed, and nothing else changes |
| `MediaStreamInfo.SetLanguage` | src/libQtl/QtlMediaStreamInfo.cpp:421-428 | the language is stored normalised and nothing else changes |
| `MediaStreamInfo.NoneIfNegative` | src/libQtl/QtlMediaStreamInfo.cpp:435-443 | a negative FFmpeg index or Teletext page is stored as -1, any other value as itself |
| `MediaStreamInfo.CcNumber` | src/libQtl/QtlMediaStreamInfo.cpp:445-448 | a closed caption number from 1 up is stored as itself, anything else as -1 |
| `MediaStreamInfo.ZeroIfNegative` | src/libQtl/QtlMediaStreamInfo.cpp:450-458 | a negative width or height is stored as 0, any other value as itself |
| `MediaStreamInfo.ClampsAreIdempotent` | src/libQtl/QtlMediaStreamInfo.cpp:435-458 | every clamping setter leaves an already clamped value alone |
| `MediaStreamInfo.SubtitleTypeOfFile` | src/libQtl/QtlMediaStreamInfo.cpp:90-127 | an empty name is no subtitle file, and a file name never gives DVB, Teletext or closed caption subtitles |
| `MediaStreamInfo.FileExtension` | src/libQtl/QtlMediaStreamInfo.cpp:134-153 | a subtitle type has a usual extension exactly when it is SRT, SSA, ASS or DVD |
| `MediaStreamInfo.IsTextFile` | src/libQtl/QtlMediaStreamInfo.cpp:160-180 | a subtitle file is a text file exactly when it is SRT, SSA or ASS |
| `MediaStreamInfo.ExtensionRoundTrip` | src/libQtl/QtlMediaStreamInfo.cpp:90-153 | a file named with the usual extension of a subtitle type is recognised as that type when existence is not checked |
| `MediaStreamInfo.MergeKeepsKnownFields` | src/libQtl/QtlMediaStreamInfo.cpp:211-271 | every field the destination stream already knows is kept by a merge (type, title, codec, language, index, subtitle type, Teletext page, size, rotation, bit rate, channels, sampling rate and every flag), and the stream id never changes |
| `MediaStreamInfo.MergeInfoIdempotent` | src/libQtl/QtlMediaStreamInfo.cpp:211-271 | merging the same source twice adds nothing the first merge did not |
| `MediaStreamInfo.FindById` | src/libQtl/QtlMediaStreamInfo.cpp:197-204 | the first source stream with the stream id, none before it, and none when no stream has it |
| `MediaStreamInfo.Merge` | src/libQtl/QtlMediaStreamInfo.cpp:187-273 | each destination stream with a stream id is completed from the first source stream with that id, the others are left as they are, and the list keeps its length |
| `MediaStreamInfo.MergedUnmatched` | src/libQtl/QtlMediaStreamInfo.cpp:192-209 | a stream without id, or without a counterpart, comes out of the merge unchanged |
| `Job.SelectedSubtitleType` | src/QtlMovie/QtlMovieJob.cpp:261-262 | without a selected subtitle stream the subtitle type is none |
| `Job.TranscodeNeedsStreams` | src/QtlMovie/QtlMovieJob.cpp:265-274 | a transcoding to a DVD or an iPad is possible only with a selected audio and video stream inside the stream list |
| `Job.SubRipNeedsSubtitles` | src/QtlMovie/QtlMovieJob.cpp:276-281 | SRT output is possible only with a selected subtitle stream of a type it can export |
| `Job.IsoOnlyBurns` | src/QtlMovie/QtlMovieJob.cpp:255-258 | an ISO image can be burnt and nothing else |
| `Job.ClockOf` | src/QtlMovie/QtlMovieJob.cpp:603-605 | a time splits into hours, minutes below 60 and seconds below 60 that add back up to it |
| `Job.Pad2` | src/QtlMovie/QtlMovieJob.cpp:603-605 | a number written in decimal with at least two digits, exactly two below 100, reads back as the number |
| `Job.ChapterStarts` | src/QtlMovie/QtlMovieJob.cpp:600-606 | the chapter starts after n chapters are n + 1 values |
| `Job.ChapterListMarks` | src/QtlMovie/QtlMovieJob.cpp:600-606 | the chapter list is the marks of the chapter starts, in order, separated by commas |
| `Job.ChapterStartsSpan` | src/QtlMovie/QtlMovieJob.cpp:601 | the k-th chapter start is k times the chapter duration |
| `Job.ChapterOptions` | src/QtlMovie/QtlMovieJob.cpp:592-610 | nothing when a duration is unknown or the movie is shorter than a chapter; otherwise "-c" and the marks of every multiple of the chapter duration from 0 up to the total |
| `SubStationAlphaTime.TimeFields` | src/libQtl/QtlSubStationAlphaFrame.cpp:112 | splitting on ':' or '.' with empty parts kept gives at least one field |
| `SubStationAlphaTime.ToTimestamp` | src/libQtl/QtlSubStationAlphaFrame.cpp:108-130 | the timestamp in milliseconds never overflows the 64-bit result |
| `SubStationAlphaTime.TimeFieldsCut` | src/libQtl/QtlSubStationAlphaFrame.cpp:112 | a separator after a field without one cuts exactly there |
| `SubStationAlphaTime.TimestampRoundTrip` | src/libQtl/QtlSubStationAlphaFrame.cpp:108-130 | reading four decimal fields, the last after ':' or '.', gives hours, minutes, seconds and hundredths in milliseconds |
| `SubStationAlphaTime.TimestampFields` | src/libQtl/QtlSubStationAlphaFrame.cpp:112 | the timestamp text splits into its four decimal texts |
| `SubStationAlphaTime.TimestampNeedsFourFields` | src/libQtl/QtlSubStationAlphaFrame.cpp:112-124 | a non-zero timestamp comes from exactly four fields, each a non-negative int |
| `SubStationAlphaFrame.IndexOf` | src/libQtl/QtlSubStationAlphaFrame.cpp:59 | the index of the next comma is -1 or lies at or after the start |
| `SubStationAlphaFrame.IndexOfFirst` | src/libQtl/QtlSubStationAlphaFrame.cpp:59 | the index found holds the character and none before it from the start does; -1 means there is none |
| `SubStationAlphaFrame.FieldEnd` | src/libQtl/QtlSubStationAlphaFrame.cpp:59-63 | a field ends within the definition, before its end only for a field that is not the last format field |
| `SubStationAlphaFrame.FieldEndComma` | src/libQtl/QtlSubStationAlphaFrame.cpp:59-63 | a field ends at a comma or at the end of the definition and holds no comma unless it is the last format field |
| `SubStationAlphaFrame.Pieces` | src/libQtl/QtlSubStationAlphaFrame.cpp:55-71 | no more raw fields than format fields are cut |
| `SubStationAlphaFrame.PiecesJoin` | src/libQtl/QtlSubStationAlphaFrame.cpp:52-71 | the split loses nothing: the fields joined by commas give back the definition, the last format field taking the rest of it, commas included |
| `SubStationAlphaFrame.PiecesShape` | src/libQtl/QtlSubStationAlphaFrame.cpp:55-71 | there is one field per comma plus one, up to the number of format fields, and every field but the last format field's is free of commas |
| `SubStationAlphaFrame.Squeeze` | src/libQtl/QtlSubStationAlphaParser.cpp:77-80 | normalising a style name never lengthens it |
| `SubStationAlphaFrame.Apply` | src/libQtl/QtlSubStationAlphaFrame.cpp:66-88 | storing a field records it under its format name, whatever else its name makes it set |
| `SubStationAlphaFrame.StoreField` | src/libQtl/QtlSubStationAlphaFrame.cpp:66-88 | the loop body records the field and sets the style, text, start or end as its name says, as Apply defines |
| `SubStationAlphaFrame.ParseDefinition` | src/libQtl/QtlSubStationAlphaFrame.cpp:43-90 | the constructor gives the frame FrameOf defines from the definition and the format |
| `SubStationAlphaFrame.RestKeys` | src/libQtl/QtlSubStationAlphaFrame.cpp:55-71 | every field stored is recorded under its format name, and nothing else is |
| `SubStationAlphaFrame.RestLast` | src/libQtl/QtlSubStationAlphaFrame.cpp:60-81 | when every format field gets a field, the last format name holds the last field trimmed, and so does the text when the text comes last |
| `SubStationAlphaFrame.TextTakesRest` | src/libQtl/QtlSubStationAlphaFrame.cpp:52-63 | with the text last and a comma for every other field, the fields joined by commas are the definition, none but the last holds a comma, and the text is the last field trimmed |
| `SubStationAlphaFrame.FrameInfoKeys` | src/libQtl/QtlSubStationAlphaFrame.cpp:43-90 | the info map of a frame holds the names of the format fields that got a field, and no other |
| `SubStationAlphaLines.Lines` | src/libQtl/QtlSubStationAlphaFrame.cpp:182-183 | splitting on every `\n` or `\N` gives at least one line |
| `SubStationAlphaLines.LinesHaveNoBreak` | src/libQtl/QtlSubStationAlphaFrame.cpp:182-183 | no line holds a break code |
| `SubStationAlphaLines.LinesWhole` | src/libQtl/QtlSubStationAlphaFrame.cpp:182-183 | a text without break codes is a single line |
| `SubStationAlphaLines.LinesCut` | src/libQtl/QtlSubStationAlphaFrame.cpp:182-183 | a break code cuts the text exactly there |
| `SubStationAlphaLines.LinesRoundTrip` | src/libQtl/QtlSubStationAlphaFrame.cpp:182-183 | lines without break codes joined with `\n` split back into the same lines |
| `Bytes.BE16` | src/libQtl/QtlByteBlock.h:630-633 | a 16-bit big-endian field read from a block is below 2^16 |
| `Bytes.BE32` | src/libQtl/QtlByteBlock.h:630-633 | a 32-bit big-endian field read from a block is below 2^32 |
| `Bytes.LE32` | src/libQtl/QtlByteBlock.h:661-664 | a 32-bit little-endian field read from a block is below 2^32 |
| `Bytes.Latin1` | src/libQtl/QtlByteBlock.h:596-602 | the Latin-1 string read is never longer than the size asked, being cut at the end of the block |
| `TestIfoDump.CellsForAngle` | src/TestTool/TestIfoDump.cpp:641-646 | the cells kept for an angle are never more than the cells of the chain |
| `ProgramChainDemux.Run` | src/libQts/QtsDvdProgramChainDemux.cpp:221-277 | the sectors run through the demultiplexer keep the buffer its length |
| `ProgramChainDemux.WithAddress` | src/libQts/QtsDvdProgramChainDemux.cpp:258-265 | a navigation pack with its addresses rewritten is still one sector |
| `DvdMedia.ReadableRun` | src/libQts/QtsDvdMedia.cpp:447 | the sectors one read delivers are at most those asked for, and a short read stops at an unreadable sector |
| `DvdMedia.SortByStart` | src/libQts/QtsDvdMedia.cpp:289 | sorting the file list by start sector keeps its length; SortByStartSorted states the order |

## Left out

- I/O is not modelled: files, the DVD device, the log and the GUI. File contents, directory listings and device sectors are parameters, given as sequences of bytes or sectors.
- libdvdcss is abstracted: the device is a sequence of sectors, each readable or not. CSS keys, `openFromFile`, `searchFile` and `vtsInformationFile` are not part of this model.
- The MPEG-2 CRC32 (QtsCrc32) is not part of this model. It is a function parameter of the section and table operations.
- QtsDvdFile is not part of this model. A file's end sector is taken as its start plus its size rounded up to whole 2048-byte sectors.
- The `QtlRangeList` merge source is not part of this model. Its semantics follow the unit tests: consecutive, exactly adjacent ranges are merged.
- `qtlToInt` is modelled for base 10 only. Blanks and underscores are removed, a sign is optional, and the result lies in 0..INT_MAX.
- Case folding is ASCII only. Qt's Unicode case mapping and `absoluteNativeFilePath` are not modelled; file paths are compared as given.
- Floating-point fields of QtlMediaStreamInfo are not modelled: the display aspect ratio and the frame rate. `MediaStreamInfo.Merge` covers every other field.
- ffprobe output parsing and `updateMediaInfo` are not modelled. `MovieInputFile.InputFile.constructor` receives the stream list.
- The program chain demux's `write()` failure on the output file is not modelled. Writes always succeed.
- Job.ChapterOptions: no 32-bit overflow of the running chapter start. Integers are unbounded.
- The QtlMovieAction `start`/`emitCompleted` machinery is modelled as a log of completions, first completion wins. The session's description text, progress reporting and directory creation are not modelled. Whether the output directory can be created is a parameter.
- `qtlHexa` is modelled only in its single-line and compact forms. The multi-line layout with offsets and ASCII columns is not modelled, and the formatting flags are booleans.
- Teletext limits:
  - `REVERSE_8` is modelled by a bit-reversal formula, not the transcribed table.
  - Page rendering is not modelled: `processTeletextPacket`, `processTeletextPage`, `flushTeletext`, the character sets and timestamps.
  - `reset`/`resetPid` are not modelled.
  - BCD conversion of negative page numbers is not modelled.
- SubStation Alpha limits:
  - `toSubRip` is modelled only for its split into lines on `\n` and `\N`.
  - The style-override substitutions, HTML wrapping, `rgbToSubRip` and `getInfo` are not modelled.
  - The style map is a type parameter.
- Teletext.Unham2418: follows the source's parity tests, but is not proved to correct every single-bit error of section 8.3 of ETSI EN 300 706.
- `QtsDescriptorList::append(const QtsAbstractDescriptor&)` is modelled only for the private data specifier descriptor, the only one this core builds.
- The descriptor list's `operator==` is not modelled.
- QtsTable holds its sections through shared pointers (`QtsSectionPtr`); the model holds them by value. When `addSection` rewrites the last section number of the sections already stored, the caller's own section objects are not changed in the model, whereas the source changes them through the shared pointer.
- `QtlDvdProgramChain` cells are a local datatype. The Qt cell list accessors are not modelled.
- `DvdMediaClass.Media.Close` does not reset the title set count, as in the source.
- The source's directory objects keep their files and their subdirectories in two separate lists. The model's `DvdMedia.Directory` keeps one list of entries in record order. Each of the source's lists is the entries of one kind, in that same order.
- `TestIfoDump::readSector` never updates its next-sector position, so every read seeks again. The model does the same.
- DvdMedia.DeviceRead: never returns 0. libdvdcss can return 0 at the end of a short device or image file; the source loop at src/libQts/QtsDvdMedia.cpp:403-485 then never ends when it errors on bad sectors, has spent its retry budget or fails to seek. Leaving 0 out keeps `DvdMedia.ReadLoop` terminating.
- DvdTitleSet.TitleSet.ReadVtsIfo: QtsDvdProgramChain.cpp is not part of this model. Each PGC is parsed with the `QtlDvdProgramChain` parser, which takes no original cell list, whereas src/libQts/QtsDvdTitleSet.cpp:511 passes `_originalCells` to the QtsDvdProgramChain constructor. Angles and chapters are not modelled.
- QtlVersion.ParseText: a beta field starts with an ASCII letter. Qt's `QChar::isLetter` (src/libQtl/QtlVersion.cpp:136) also accepts non-ASCII letters, so "1.2-é3" is a beta version in the source and not in the model.
- QtlVersion.Version.SetText: inherits the ASCII letter test of `QtlVersion.ParseText`.
- `CanTranscode` carries no `ensures`. The lemmas `Job.TranscodeNeedsStreams`, `Job.SubRipNeedsSubtitles` and `Job.IsoOnlyBurns` state its rules.

## Findings

| source | as written | input that shows it | evidently intended | confidence | as-written member | corrected member |
|---|---|---|---|---|---|---|
| src/libQtl/QtlRange.cpp:154-162 | `overlap` compares the distance between the first values with the count of the lower range only | the empty range at 5 against the range 5..9: overlap is true one way and false the other | two ranges overlap iff they share a value, in either order | high (not executed) | `QtlRange.OverlapAsWritten`, `QtlRange.OverlapAsWrittenEmptyRange` | `QtlRange.Overlap` |
| src/libQtl/QtlRange.cpp:130-141 | `scale` tests `first > (RANGE_MAX - factor + 1) / factor` and `count > (maxCount - factor + 1) / factor` | first = (2^63 - 2) / 3, count 1, factor 3: reported as a complete overflow. first 0, count (2^63 - 3) / 5, factor 5: stretched up to RANGE_MAX | every scaled value that fits in qint64 is kept, and no other | high (not executed) | `QtlRange.ScaleAsWritten`, `QtlRange.ScaleAsWrittenDropsValues`, `QtlRange.ScaleAsWrittenStretches` | `QtlRange.Range.Scale` |
| src/libQtl/QtlRange.cpp:204-219 | `clip` uses `last()` of an empty range, which is saturated at RANGE_MIN | the empty range at RANGE_MIN clipped by itself gives a one-value range | a clipped range holds only values of both ranges | medium (not executed) | `QtlRange.ClipAsWritten`, `QtlRange.ClipAsWrittenCreatesValue` | `QtlRange.Range.Clip` |
| src/libQts/QtsDvdMedia.cpp:514-517 | `if (!readSectors(...))` rejects only a result of 0 | a directory whose read returns -1 and delivers nothing is listed as empty | the directory is read in full or the open fails | high (not executed) | `DvdMedia.ListingAsWritten`, `DvdMedia.UnreadDirectoryLooksEmpty` | `DvdMedia.Listing` |
| src/libQts/QtsSection.cpp:98-103 | the long-section checks only run when the data holds at least 12 bytes | the content 00 80 00 is accepted, then read as a long section with a negative payload size | a section that declares itself long must hold a long header | medium (not executed) | `Sections.InitializeAsWritten`, `Sections.ShortLongSectionAccepted` | `Sections.Initialize` |
| src/libQts/QtsTable.cpp:272-297 | `addSection` grows the table and updates the missing count before it refuses an already-present section | a complete one-section table, offered section 0 again announcing two sections, with replace off: refused, but the table has an empty slot and still says it is valid | after a refusal the validity flag still equals missingCount == 0 | medium (not executed) | `Tables.Table.AddSectionAsWritten`, `Tables.StaleValidityExample` | `Tables.Table.AddSection` |
| src/libQts/QtsDescriptorList.cpp:174-184 | `removeInvalidPrivateDescriptors` increments the index after `removeAt(n)` | two private descriptors in a row with no private data specifier: the second stays | every private descriptor without a specifier is removed | high (not executed) | `DescriptorLists.DescriptorList.RemoveInvalidPrivateDescriptorsAsWritten`, `Descriptors.SweepAsWritten`, `Descriptors.SweepSkipsSecondOrphan` | `DescriptorLists.DescriptorList.RemoveInvalidPrivateDescriptors` |
| src/libQts/QtsDescriptorList.cpp:313-322 | `serialize(QtlByteBlock&, ...)` shrinks the block to `oldSize + size`, where `size` is the room left after writing | one 6-byte descriptor into an empty block limited to 10 bytes leaves a 4-byte block | the block ends after the last byte written | high (not executed) | `DescriptorLists.DescriptorList.SerializeToBlockAsWritten`, `Descriptors.SerializeBlockTruncates` | `DescriptorLists.DescriptorList.SerializeToBlock` |
| src/libQts/QtsDescriptorList.cpp:372-376 | `lengthSerialize(QtlByteBlock&, ...)` shrinks the block by the same room-left size | as for `serialize` | the block ends after the last byte written | high (not executed) | `DescriptorLists.DescriptorList.LengthSerializeToBlockAsWritten` | `DescriptorLists.DescriptorList.LengthSerializeToBlock` |
