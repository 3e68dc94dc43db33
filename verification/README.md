# Verified model of the embedded tools and libraries

A Dafny 4.11 model of the vendored components of this repository whose behaviour is hard to see from the code: the
ESP32 firmware image writer and reader, the SLIP framing and the flash overlap check of esptool, Catch's section
tracker, the partition table tool, the two ArduinoJson arenas, and the Arduino core's String, Print and Stream.
`dafny verify dfyconfig.toml` checks everything.

## What is modelled

**Firmware images** (`Bytes`, `StableSort`, `MemoryFile`, `ImageLayout`, `ImageContent`, `ImageFormat`,
`ImageTheorems`, `ImageSaves`, `ImageLoads`, `ImageReread`, `FirmwareImage`). `Layout` is the worklist of `save` as a
function: padding segments, RAM chunks and flash segments in the order they are written. `FirmwareImage` has the classes
and loops of the tool, which split and pop segments and write a file in memory; `Save` and `LoadFrom` are proved equal
to the functions `SavedBytes` and `Parse`, and the theorems are about these.

**SLIP and sectors** (`Slip`, `FlashSectors`). The reader is a state machine over bytes (RFC 1055, section PROTOCOL,
with the tool's stricter errors), fed by reads of any size.

**Section tracking** (`SectionTracking`, `SectionLosses`, `TestRunner`). `SectionTracking` is a tree of sections and
trackers with one function for a cycle, and `SectionLosses` tells which exceptions lose leaves. `TestRunner` has the
mutable state of the test runner, a store of trackers by path, and the methods of the tracker and the run context; it is
proved to follow the tree model.

**Partition tables** (`PythonText`, `PartitionCsv`, `PartitionTable`, `PartitionReader`, `PartitionBinary`). Text
parsing and printing with the Python string functions it uses, layout, verification, and the binary form.

**Arenas** (`JsonBuffer`, `StaticJsonBuffer`, `DynamicArena`, `DynamicJsonBuffer`). Bump allocation over byte arrays, a
linked chain of blocks, and the string builders. Sizes are 32-bit words that wrap around.

**Strings, numbers and streams** (`ArduinoText`, `GrowingReplace`, `ArduinoString`, `ArduinoNumber`, `StreamFind`,
`ArduinoStream`). Byte arrays with a terminator, changed in place; a `long` is 32 bits wide and wraps around.

## What the proofs found

- `get_alignment_data_needed` also answers zero for a gap of exactly one segment header, so the assertion behind it can
  fail. It cannot when every flash address is at least 16 bytes into its page. For images of flash segments alone the
  exact condition is `OneHeaderGapAfter`; that some RAM segments lead to it is exactly `Fragile` for some gap. The
  constructor pads segments with an address to four bytes, so beside one flash segment whose gap is no multiple of four
  it takes a RAM segment without an address (`WordSizedRamMisaligns`).
- Reading an image back pads every segment with an address to four bytes. The segments read back are the emitted ones
  exactly when their lengths are divisible by four, which splitting can break (`OddSplitExample`). With word-sized
  segments some RAM segments break it exactly when a flash address leaves an `OddGap`.
- A partition table does not come back from its own CSV text when a name starts with a dollar sign and an identifier, or
  when a size is negative after layout (`DollarNameExample`, `NegativeSizeExample`).
- The binary table holds 95 records, not the 96 that a comment beside `MAX_PARTITION_LENGTH` gives: the length check is
  strict.
- `flash_size` is too small when an empty partition precedes a larger one at the same, last offset.
- The overlap check for flash files also refuses an empty file at the start of a sector that a lower file reaches.
- `findUntil` misses targets with a bad border, such as one that repeats its first byte: "aab" in "aaab". The condition
  is exact. Its terminator is given no second chance at all: "\r\n" is missed in "\r\r\n", and only a terminator
  that repeats one byte is never missed (`TerminatesFirstExactly`).
- `save` pads a whole 64 KB page more than the gap needs when the flash address is farther into its page than the file
  position behind the next header (`PaddingAmount`).
- `parseInt` skips the control character 1 between digits.
- Growing `replace` works from the end in the text it has already changed. It is the leftmost replacement of every text
  exactly when `NoBadSuffix` holds of the two strings. It stays inside the buffer for every text exactly when no end of
  the search string but itself starts the replacement string (`Clean`); otherwise the second replacement of one
  occurrence writes past it, as when "ab" becomes "b" and 13 more characters in "aab" (`OverrunExample`).
- A Catch section that throws and has sub-sections loses the leaves after its first cycle that none of these has thrown
  in; `Lossless` is the exact condition. A test case that throws after its sections loses nothing.
- The sums that both arenas compare with a capacity can wrap around; `NeverWraps` is the exact guard.

## Conventions

Library functions that the code calls are parameters (digests, text encoding) or are specified by what they promise
(sorting is stable, `strstr` finds the first occurrence, `memcpy` and `strcpy` towards lower addresses copy in address
order, `realloc` keeps the old bytes). Whether memory is available, and what fresh memory holds, are parameters too.
Printing a negative `long` and reading digits past the range are overflows in C++; the model gives them the
two's-complement result.

## Model

| member | source | states |
|---|---|---|
| FirmwareImage.ImageSegment.constructor | arduino/hardware/espressif/esp32/tools/esptool.py:1213-1219 | a segment with an address is padded with zeros to a multiple of four bytes, one without is kept as it is |
| FirmwareImage.ImageSegment.SplitImage | arduino/hardware/espressif/esp32/tools/esptool.py:1226-1236 | the first bytes go to a new segment at the old address; the receiver keeps the others and its address moves by the same number |
| ImageLayout.NoPaddingWhen | arduino/hardware/espressif/esp32/tools/esptool.py:1577-1592 | no padding is asked for exactly when the data is aligned already or the gap is one segment header, and not both |
| ImageLayout.PaddingAligns | arduino/hardware/espressif/esp32/tools/esptool.py:1577-1592 | padding of the computed length puts the next segment on an aligned offset |
| ImageLayout.PaddingSettles | arduino/hardware/espressif/esp32/tools/esptool.py:1577-1592 | after one full padding segment none is asked for any more, so the loop goes on to the flash segment |
| ImageLayout.PaddingAmount | arduino/hardware/espressif/esp32/tools/esptool.py:1577-1592 | the padding is the gap without the header, but a 64 KB page more when the gap is shorter than a header or the address is farther into its page than the position behind the header |
| ImageLayout.SplitFirst | arduino/hardware/espressif/esp32/tools/esptool.py:1600-1606 | taking a chunk of RAM lowers RAM bytes plus RAM segments, the second component of the termination measure |
| ImageLayout.LayoutAligns | arduino/hardware/espressif/esp32/tools/esptool.py:1596-1613 | every flash segment of a plan starts where its data is congruent to its address modulo 64 KB |
| ImageLayout.NeverMisaligned | arduino/hardware/espressif/esp32/tools/esptool.py:1577-1613 | with flash addresses at least 16 bytes into their page the alignment assertion cannot fail, from any position and for any RAM segments |
| ImageLayout.FlashOnlyMisaligned | arduino/hardware/espressif/esp32/tools/esptool.py:1577-1613 | without RAM segments the alignment assertion fails if and only if two consecutive flash segments (or the headers and the first one) leave a gap of exactly one header |
| ImageLayout.MisalignedExample | arduino/hardware/espressif/esp32/tools/esptool.py:1577-1613 | two flash segments on which the assertion fails |
| ImageLayout.SafeFromAnyRam | arduino/hardware/espressif/esp32/tools/esptool.py:1577-1613 | when no gap before a flash segment is fragile, no RAM segments at all make the alignment assertion fail |
| ImageLayout.FragileCanFail | arduino/hardware/espressif/esp32/tools/esptool.py:1577-1613 | when some gap is fragile, RAM segments built from the gaps, each as the constructor makes it, make it fail |
| ImageLayout.SomeRamMisaligns | arduino/hardware/espressif/esp32/tools/esptool.py:1577-1613 | from any position, some RAM segments that the constructor makes fail the assertion if and only if an address less than 16 bytes into its page has a gap of one header, or of more than two, before it |
| ImageLayout.WordSizedRamMisaligns | arduino/hardware/espressif/esp32/tools/esptool.py:1577-1613 | for one flash segment, RAM segments of whole words do so if and only if that gap is a multiple of four besides |
| StableSort.SortFacts | arduino/hardware/espressif/esp32/tools/gen_esp32part.py:187 | sorting with a key keeps the elements and orders them |
| StableSort.SortStable | arduino/hardware/espressif/esp32/tools/esptool.py:1563-1564 | elements with equal keys keep their order |
| ImageContent.SortFacts | arduino/hardware/espressif/esp32/tools/esptool.py:1563-1564 | sorting by address keeps the segments, orders them, and keeps the order of those at one address |
| ImageContent.NeighbourCheckIsComplete | arduino/hardware/espressif/esp32/tools/esptool.py:1568-1575 | comparing neighbours finds a shared 64 KB page exactly when any two flash segments share one |
| ImageContent.LayoutContent | arduino/hardware/espressif/esp32/tools/esptool.py:1596-1618 | whatever the splitting, a plan holds each flash segment whole and in order, RAM chunks that join up to the RAM segments, and only zeros besides |
| ImageContent.SplitLoads | arduino/hardware/espressif/esp32/tools/esptool.py:1226-1236 | chunks with contiguous addresses load the same memory as the segments they were split from |
| ImageContent.LoadOfDisjoint | arduino/hardware/espressif/esp32/tools/esptool.py:1210-1236 | loading segments that do not overlap puts each byte at its address |
| ImageTheorems.FlashDataIsAligned | arduino/hardware/espressif/esp32/tools/esptool.py:1547-1613 | in the saved file the data of every flash segment lies at a file offset congruent to its load address modulo 65536 |
| ImageTheorems.SaveNeverMisaligned | arduino/hardware/espressif/esp32/tools/esptool.py:1547-1613 | an image whose flash segments start at least 16 bytes into their page never fails the alignment assertion; SaveMisalignedExactly gives both directions |
| ImageTheorems.FlashImageMisaligned | arduino/hardware/espressif/esp32/tools/esptool.py:1547-1613 | an image of flash segments alone fails the assertion if and only if some gap between consecutive segments is one header |
| ImageTheorems.SafeWithAnyRam | arduino/hardware/espressif/esp32/tools/esptool.py:1547-1613 | flash segments without a fragile gap are saved whatever RAM segments are beside them |
| ImageTheorems.FailsWithSomeRam | arduino/hardware/espressif/esp32/tools/esptool.py:1547-1613 | flash segments with a fragile gap fail the assertion beside the RAM segments that the lemma names, which have no address and are not padded |
| ImageTheorems.SaveMisalignedExactly | arduino/hardware/espressif/esp32/tools/esptool.py:1547-1613 | for the flash segments of an image, some RAM segments that the constructor makes fail the assertion of save if and only if the first address is less than 16 bytes into its page or a later gap is fragile |
| ImageTheorems.MisalignedImage | arduino/hardware/espressif/esp32/tools/esptool.py:1547-1613 | an image that fails the assertion |
| ImageTheorems.SecureImageEndsOnBoundary | arduino/hardware/espressif/esp32/tools/esptool.py:1620-1634 | with secure padding the saved bytes and the room kept for digest and signature end on a 64 KB boundary, so the secure-pad assertion holds |
| ImageTheorems.SaveKeepsContent | arduino/hardware/espressif/esp32/tools/esptool.py:1556-1618 | the saved pieces are the flash segments, each once, whole and by ascending distinct page, and the RAM data in chunks |
| ImageTheorems.SaveLoadsInput | arduino/hardware/espressif/esp32/tools/esptool.py:1547-1659 | loading the pieces that are not padding gives the same memory as loading the input segments |
| ImageTheorems.ChecksumIsInvariant | arduino/hardware/espressif/esp32/tools/esptool.py:285-292 | the checksum is the exclusive or of the original segment data whatever was split, reordered or padded, and reading back does not change it |
| ImageReread.RereadIsIdentity | arduino/hardware/espressif/esp32/tools/esptool.py:1210-1224 | the segments read back are the ones emitted if and only if every segment with an address has a length divisible by four |
| ImageReread.LoadOfSaveIsExact | arduino/hardware/espressif/esp32/tools/esptool.py:1267-1322 | for word-sized segments without an odd gap the loader returns exactly the emitted segments |
| ImageReread.EvenGapsReread | arduino/hardware/espressif/esp32/tools/esptool.py:1596-1618 | without an odd gap (one whose padding is longer than a header and no multiple of four) every chunk of word-sized RAM segments has a length divisible by four |
| ImageReread.LongRamIsCut | arduino/hardware/espressif/esp32/tools/esptool.py:1596-1618 | a RAM segment longer than all padding is cut by every gap, and to an odd length by an odd one |
| ImageReread.WordAlignedIsEven | arduino/hardware/espressif/esp32/tools/esptool.py:1577-1592 | between word-aligned flash addresses no gap is odd |
| ImageReread.RereadsExactly | arduino/hardware/espressif/esp32/tools/esptool.py:1547-1618 | for word-sized flash segments of an image, some word-sized RAM segments give a plan that does not read back exactly if and only if no gap is one header long, which the assertion refuses, and some gap is odd |
| ImageReread.LoadOfSaveIsExactWhen | arduino/hardware/espressif/esp32/tools/esptool.py:1267-1322 | a saved image reads back as the emitted segments if and only if all of them with an address have a length divisible by four |
| ImageReread.OddSplitExample | arduino/hardware/espressif/esp32/tools/esptool.py:1226-1236 | a plan with a chunk of odd length, which the loader would pad |
| ImageReread.OddSplitImage | arduino/hardware/espressif/esp32/tools/esptool.py:1226-1236 | the same for an image |
| ImageSaves.LayoutIsJudged | arduino/hardware/espressif/esp32/tools/esptool.py:1596-1618 | writing fails to pack exactly when a piece of the run does, and fails the assertion exactly when all pack and flash segments are left |
| ImageSaves.RunContent | arduino/hardware/espressif/esp32/tools/esptool.py:1596-1618 | every run holds the flash segments whole, in order and in place, the RAM segments in chunks and zeros besides, and one that stops early stops before a gap of one header |
| ImageSaves.InSpacePacks | arduino/hardware/espressif/esp32/tools/esptool.py:1295-1300 | pieces of segments inside the 32-bit address space always pack |
| ImageSaves.PageCheckIsExact | arduino/hardware/espressif/esp32/tools/esptool.py:1561-1575 | the check on neighbours in order finds exactly the images in which any two flash segments, wherever listed, share a 64 KB page |
| ImageSaves.SavesExactly | arduino/hardware/espressif/esp32/tools/esptool.py:1547-1659 | save succeeds if and only if headers and pieces pack, no flash segments share a page, the assertion passes, secure padding comes with a digest and there are at most 255 pieces; each error has its own exact condition |
| ImageSaves.SavesRun | arduino/hardware/espressif/esp32/tools/esptool.py:1547-1659 | the pieces of a saved image are its whole run and the secure padding |
| ImageSaves.RamOnlyIsSaved | arduino/hardware/espressif/esp32/tools/esptool.py:1616-1618 | an image without flash segments is saved as its segments sorted by address |
| ImageSaves.OrdinaryImageIsSaved | arduino/hardware/espressif/esp32/tools/esptool.py:1547-1659 | segments in the address space, in pages of their own, with flash addresses at least 16 bytes into their page, are saved if and only if there are at most 255 pieces |
| ImageLoads.ImageIsLoaded | arduino/hardware/espressif/esp32/tools/esptool.py:1501-1534 | from a file that holds an image every field is loaded from its place |
| ImageLoads.LoadsExactly | arduino/hardware/espressif/esp32/tools/esptool.py:1501-1534 | a file is loaded if and only if it holds magic, count, digest flag, the bytes of that many segments and a checksum byte; each error has its own exact condition |
| ImageLoads.SavedFileBytes | arduino/hardware/espressif/esp32/tools/esptool.py:1675-1697 | in a saved file the reserved header bytes are zero, so the loader does not warn, and zeros fill the last block up to the checksum |
| ImageFormat.SegmentsReadBack | arduino/hardware/espressif/esp32/tools/esptool.py:1276-1287 | reading as many segments as were written gives them back, padded as the constructor pads them, and stops at their end |
| ImageFormat.NibblesRoundTrip | arduino/hardware/espressif/esp32/tools/esptool.py:1661-1697 | the drive fields come back modulo 16 from the nibbles they share |
| ImageFormat.HeadersReadBack | arduino/hardware/espressif/esp32/tools/esptool.py:1661-1697 | every field of the common and the extended header is read back |
| ImageFormat.EndReadsBack | arduino/hardware/espressif/esp32/tools/esptool.py:1518-1534 | the stored checksum equals the recomputed one, and the stored digest equals the recomputed digest |
| ImageFormat.LoadOfSave | arduino/hardware/espressif/esp32/tools/esptool.py:1501-1534 | loading a saved image succeeds if and only if at most 16 segments, padding included, were emitted, and then gives every field and segment back |
| FirmwareImage.SaveSegment | arduino/hardware/espressif/esp32/tools/esptool.py:1295-1300 | appends header and data and continues the checksum; a field that does not pack fails |
| FirmwareImage.ComputeChecksum | arduino/hardware/espressif/esp32/tools/esptool.py:285-292 | the loop folds the state with every byte |
| FirmwareImage.SharesPage | arduino/hardware/espressif/esp32/tools/esptool.py:1568-1575 | the loop over the last address finds a shared page exactly when two neighbours share one |
| FirmwareImage.NextSegment | arduino/hardware/espressif/esp32/tools/esptool.py:1596-1613 | one turn of the loop emits the piece the plan has next and lowers the termination measure |
| FirmwareImage.WriteFlash | arduino/hardware/espressif/esp32/tools/esptool.py:1596-1613 | the loop over the flash segments writes a prefix of the plan and leaves the RAM segments the plan ends with |
| FirmwareImage.WriteRam | arduino/hardware/espressif/esp32/tools/esptool.py:1616-1618 | the loop over the remaining RAM segments writes the end of the plan |
| FirmwareImage.ESP32FirmwareImage.Save | arduino/hardware/espressif/esp32/tools/esptool.py:1547-1659 | the whole of save, with its splitting and popping, its running checksum and its patched segment count, produces the bytes of the plan or the same error |
| FirmwareImage.ESP32FirmwareImage.LoadSegment | arduino/hardware/espressif/esp32/tools/esptool.py:1276-1287 | reads one segment and appends it, or fails on a short file |
| FirmwareImage.ESP32FirmwareImage.LoadHeaders | arduino/hardware/espressif/esp32/tools/esptool.py:1267-1274 | checks magic, segment count and digest flag in that order and sets every header field |
| FirmwareImage.ESP32FirmwareImage.LoadFrom | arduino/hardware/espressif/esp32/tools/esptool.py:1518-1534 | the loading constructor agrees with the parser on every input, error cases included |
| Bytes.ChecksumIsXorOf | arduino/hardware/espressif/esp32/tools/esptool.py:285-292 | the checksum is its start value exclusive-or the exclusive or of all bytes |
| MemoryFile.AlignsToLastByte | arduino/hardware/espressif/esp32/tools/esptool.py:1841-1844 | the position moves forward to the last byte of the block it is in |
| Slip.TwoPassesEscape | arduino/hardware/espressif/esp32/tools/esptool.py:264-269 | replacing twice is escaping byte by byte |
| Slip.EscapeHasNoEnd | arduino/hardware/espressif/esp32/tools/esptool.py:264-269 | no END byte is left inside a frame (RFC 1055, section PROTOCOL) |
| Slip.DecodeConcat | arduino/hardware/espressif/esp32/tools/esptool.py:1781-1826 | decoding a stream in two parts gives the packets of the whole |
| Slip.DecodesExactly | arduino/hardware/espressif/esp32/tools/esptool.py:1781-1826 | a stream decodes without rest or error to given packets if and only if it is the concatenation of their encodings |
| Slip.RefusesExactly | arduino/hardware/espressif/esp32/tools/esptool.py:1796-1826 | a stream is refused behind given packets if and only if their encodings are followed by a byte that starts no packet, or by a packet with a byte that ends no escape, and the error names it |
| Slip.SlipReader.FeedByte | arduino/hardware/espressif/esp32/tools/esptool.py:1796-1826 | the branches on one byte, in the order of the code, take the state to its successor or fail |
| Slip.SlipReader.Feed | arduino/hardware/espressif/esp32/tools/esptool.py:1784-1826 | one read: empty means a timeout, otherwise all packets completed in it |
| Slip.SlipReader.ReadAll | arduino/hardware/espressif/esp32/tools/esptool.py:1781-1826 | for every chunking of the stream into reads the packets and the error are those of the stream |
| FlashSectors.Check | arduino/hardware/espressif/esp32/tools/esptool.py:2722-2734 | the loop over neighbours in sorted order accepts exactly when every lower file ends in a sector before the one where the higher file starts; the address reported is the lowest that is negative or clashes with a lower one |
| FlashSectors.ChainIsAcceptable | arduino/hardware/espressif/esp32/tools/esptool.py:2722-2734 | neighbours in order imply every pair in order |
| FlashSectors.AcceptedAreDisjoint | arduino/hardware/espressif/esp32/tools/esptool.py:2722-2734 | accepted files have pairwise disjoint 4 KB sector footprints |
| FlashSectors.AcceptsExactlyDisjoint | arduino/hardware/espressif/esp32/tools/esptool.py:2722-2734 | for files at distinct non-negative addresses, empty ones included, acceptance is equivalent to disjoint footprints with no lower file reaching an empty file at the start of a sector |
| FlashSectors.EmptyFileRefused | arduino/hardware/espressif/esp32/tools/esptool.py:2722-2734 | an empty file inside the sectors of another is refused although it occupies none |
| SectionTracking.NothingOpensAfterwards | arduino/libraries/ArduinoJson/third-party/catch/catch.hpp:6248-6269 | once the cycle is complete no section that has not been started opens in it; it is only recorded |
| SectionTracking.OpensFirst | arduino/libraries/ArduinoJson/third-party/catch/catch.hpp:6248-6269 | a cycle passes over complete sections and opens exactly the first one that is not complete |
| SectionTracking.BodyCycle | arduino/libraries/ArduinoJson/third-party/catch/catch.hpp:6174-6216 | one run of a body keeps the tracker tree well formed, takes the first cycle its sections have left, enters at most one leaf, and completes the section exactly when none is left and nothing was thrown |
| SectionTracking.SectionCycle | arduino/libraries/ArduinoJson/third-party/catch/catch.hpp:6732-6783 | a section that is opened takes the first cycle it has left, with the leaf and the exception that belong to it, whichever sections throw |
| SectionTracking.TestCycle | arduino/libraries/ArduinoJson/third-party/catch/catch.hpp:6851-6900 | the same for the whole test case, whose own exceptions only end its body |
| SectionTracking.RunEntersLeft | arduino/libraries/ArduinoJson/third-party/catch/catch.hpp:6659-6668 | from any reachable tracker tree the run until completion terminates and enters exactly the leaves of the cycles left, in order |
| SectionTracking.RunFromStart | arduino/libraries/ArduinoJson/third-party/catch/catch.hpp:6659-6668 | a run from the start enters the leaf sections that the tree alone determines, for every tree of distinctly named sections and whichever of them throw |
| SectionTracking.LeavesDistinct | arduino/libraries/ArduinoJson/third-party/catch/catch.hpp:6659-6668 | the leaves of a tree with distinct names have distinct paths, so entering the list means entering each once |
| SectionLosses.SectionEnters | arduino/libraries/ArduinoJson/third-party/catch/catch.hpp:6210-6216 | a section enters some of its leaves in order, and all of them if and only if it is lossless: it and the sections below throw only after all their leaves |
| SectionLosses.EndsThrowing | arduino/libraries/ArduinoJson/third-party/catch/catch.hpp:6210-6216 | a body that throws loses nothing exactly when no leaf comes after the first cycle of its sections that ends normally |
| SectionLosses.QuietVisits | arduino/libraries/ArduinoJson/third-party/catch/catch.hpp:6210-6216 | that is a property of the tree: every section of the body but the last throws, and so does the last one, or the same holds of its own sections |
| SectionLosses.EveryLeafOnce | arduino/libraries/ArduinoJson/third-party/catch/catch.hpp:6659-6668 | running until the test case is complete enters every leaf section exactly once, in depth-first order, if and only if each of its sections is lossless |
| SectionLosses.NoLeafTwice | arduino/libraries/ArduinoJson/third-party/catch/catch.hpp:6659-6668 | whatever throws, no leaf section is entered twice |
| TestRunner.AtMostOneOpen | arduino/libraries/ArduinoJson/third-party/catch/catch.hpp:6169-6209 | in every reachable state at most one child of a tracker is partly done |
| TestRunner.SetStateKeepsOrder | arduino/libraries/ArduinoJson/third-party/catch/catch.hpp:6163-6216 | state changes keep the order: an opened child has complete earlier siblings, and a completed tracker has complete children |
| TestRunner.AddChildKeepsOrder | arduino/libraries/ArduinoJson/third-party/catch/catch.hpp:6248-6269 | recording a new child keeps the order |
| TestRunner.RunContext.OpenChild | arduino/libraries/ArduinoJson/third-party/catch/catch.hpp:6163-6169 | the tracker and its ancestors are marked as executing children, and the invariant is kept |
| TestRunner.RunContext.Open | arduino/libraries/ArduinoJson/third-party/catch/catch.hpp:6174-6179 | the tracker executes, its parent executes children, and it becomes the current one |
| TestRunner.RunContext.AcquireTracker | arduino/libraries/ArduinoJson/third-party/catch/catch.hpp:6248-6269 | finds or records the child and opens it unless the cycle or the child is complete |
| TestRunner.RunContext.Close | arduino/libraries/ArduinoJson/third-party/catch/catch.hpp:6181-6209 | closes by the state of the tracker and of its last child, moves to the parent and completes the cycle |
| TestRunner.RunContext.Fail | arduino/libraries/ArduinoJson/third-party/catch/catch.hpp:6210-6216 | marks the tracker failed and its parent as needing another run, moves to the parent and completes the cycle |
| TestRunner.RunContext.SectionStarted | arduino/libraries/ArduinoJson/third-party/catch/catch.hpp:6732-6749 | the section is included exactly when its tracker is open afterwards, and is then active |
| TestRunner.RunContext.SectionEnded | arduino/libraries/ArduinoJson/third-party/catch/catch.hpp:6762-6773 | closes the active section, if there is one |
| TestRunner.RunContext.SectionEndedEarly | arduino/libraries/ArduinoJson/third-party/catch/catch.hpp:6775-6783 | the innermost section left by an exception fails, the others close |
| TestRunner.RunContext.HandleUnfinishedSections | arduino/libraries/ArduinoJson/third-party/catch/catch.hpp:6917-6926 | after all sections have been left early nothing is ended twice |
| TestRunner.RunContext.RunKid | arduino/libraries/ArduinoJson/third-party/catch/catch.hpp:8754-8773 | meeting a section, running it if included and leaving it does to the tracker store what the tree model says |
| TestRunner.RunContext.RunBody | arduino/libraries/ArduinoJson/third-party/catch/catch.hpp:6851-6900 | the same for the sections of a body, up to the first exception |
| TestRunner.RunContext.RunCurrentTest | arduino/libraries/ArduinoJson/third-party/catch/catch.hpp:6851-6900 | one cycle of the test case, with the close after it |
| TestRunner.RunContext.RunTest | arduino/libraries/ArduinoJson/third-party/catch/catch.hpp:6647-6690 | the do-while loop terminates, enters the leaf sections of the tree in order, every leaf exactly once if and only if the sections are lossless, and ends with the test complete and the invariant true |
| PythonText.SplitJoin | arduino/hardware/espressif/esp32/tools/gen_esp32part.py:265-288 | splitting at commas undoes joining |
| PythonText.SplitUnlines | arduino/hardware/espressif/esp32/tools/gen_esp32part.py:82-97 | splitting into lines undoes ending each with a line break |
| PythonText.PyIntOfDec | arduino/hardware/espressif/esp32/tools/gen_esp32part.py:417-432 | reading a printed decimal number gives it back, negative ones too |
| PythonText.PyIntOfHex | arduino/hardware/espressif/esp32/tools/gen_esp32part.py:417-432 | reading a printed hexadecimal number gives it back |
| PartitionCsv.ParseLineExactly | arduino/hardware/espressif/esp32/tools/gen_esp32part.py:265-288 | a line is read if and only if type and size are given and parse, subtype and offset parse or are empty, and no flag is unknown, and then into these fields |
| PartitionCsv.SizeTextShape | arduino/hardware/espressif/esp32/tools/gen_esp32part.py:357-389 | whole megabytes and kilobytes are printed with their suffix |
| PartitionCsv.ParseSize | arduino/hardware/espressif/esp32/tools/gen_esp32part.py:391-432 | a size printed with or without K or M suffix is parsed to the same number |
| PartitionCsv.KeywordReadBack | arduino/hardware/espressif/esp32/tools/gen_esp32part.py:41-61 | every type and subtype keyword, the sixteen OTA slots included, is looked up to the value it was printed for |
| PartitionCsv.ParseKeywordText | arduino/hardware/espressif/esp32/tools/gen_esp32part.py:391-432 | a type or subtype is parsed back whether it was printed as keyword or number |
| PartitionCsv.LineRoundTrip | arduino/hardware/espressif/esp32/tools/gen_esp32part.py:265-288 | parsing a printed line gives name, type, subtype, offset, size and flags back |
| PartitionTable.ReadRowsExactly | arduino/hardware/espressif/esp32/tools/gen_esp32part.py:86-104 | the lines are read if and only if none starts with a variable and every one that is not blank or a comment is parsed |
| PartitionTable.LayoutExactly | arduino/hardware/espressif/esp32/tools/gen_esp32part.py:106-125 | the layout pass gives a table if and only if given offsets are kept and not below the end before them, missing ones are the least multiple of 64 KB for an app and of 4 for anything else, and a negative size is an end address |
| PartitionTable.FromCsvExactly | arduino/hardware/espressif/esp32/tools/gen_esp32part.py:82-125 | from_csv returns a table if and only if it is the layout of the rows of the file |
| PartitionTable.AppExample | arduino/hardware/espressif/esp32/tools/gen_esp32part.py:116-120 | an app behind a partition that ends at 0xF000 is put at 0x10000 |
| PartitionTable.ReadPrinted | arduino/hardware/espressif/esp32/tools/gen_esp32part.py:233-237 | reading a printed table gives the entries as rows, or fails if a name starts with a dollar sign and an identifier |
| PartitionTable.LayoutPlaces | arduino/hardware/espressif/esp32/tools/gen_esp32part.py:106-123 | an offset that was given is kept and an offset that was not is the least aligned one at or after the end of the predecessor |
| PartitionTable.LayoutAgain | arduino/hardware/espressif/esp32/tools/gen_esp32part.py:106-123 | laying out a laid-out table changes nothing if and only if no size is negative (or names the same end again) |
| PartitionTable.CsvRoundTrip | arduino/hardware/espressif/esp32/tools/gen_esp32part.py:82-125 | printing and reading a table made by from_csv is the identity if and only if its sizes are stable and no name starts with a dollar sign and an identifier |
| PartitionTable.DollarNameExample | arduino/hardware/espressif/esp32/tools/gen_esp32part.py:82-104 | a file that is read, by a space before the dollar sign, and whose printed table is refused |
| PartitionTable.NegativeSizeExample | arduino/hardware/espressif/esp32/tools/gen_esp32part.py:116-123 | a file with an end address below the offset, whose printed table reads differently |
| PartitionTable.ChainIsApart | arduino/hardware/espressif/esp32/tools/gen_esp32part.py:186-192 | comparing neighbours by offset accepts exactly the tables whose entries are pairwise apart |
| PartitionTable.ApartIsDisjoint | arduino/hardware/espressif/esp32/tools/gen_esp32part.py:186-192 | entries that are pairwise apart share no address |
| PartitionTable.VerifyOrder | arduino/hardware/espressif/esp32/tools/gen_esp32part.py:186-192 | the loop over the sorted entries reports an entry below the table first, then an overlap with the predecessor |
| PartitionTable.ApartIsExactlyDisjoint | arduino/hardware/espressif/esp32/tools/gen_esp32part.py:186-192 | partitions that are not empty are pairwise apart if and only if they share no address |
| PartitionTable.Verify | arduino/hardware/espressif/esp32/tools/gen_esp32part.py:168-192 | accepts a table if and only if apps are aligned to 64 KB and the others to words, names are distinct, every offset is behind the table and the partitions are pairwise apart, and then they share no address; each problem has its exact condition: the three passes report the first problem: alignment, duplicate names, an entry below the table or overlapping its predecessor |
| PartitionTable.LayoutIsVerified | arduino/hardware/espressif/esp32/tools/gen_esp32part.py:106-125 | a layout with non-negative sizes passes the overlap pass |
| PartitionTable.FlashSizeCovers | arduino/hardware/espressif/esp32/tools/gen_esp32part.py:194-202 | flash_size covers every entry if and only if no entry at the last offset is larger than the one the reverse sort puts first |
| PartitionTable.FlashSizeTooSmall | arduino/hardware/espressif/esp32/tools/gen_esp32part.py:194-202 | a table with an empty entry that verify accepts and whose flash_size is too small |
| PartitionTable.FlashSizeIsLargestEnd | arduino/hardware/espressif/esp32/tools/gen_esp32part.py:194-202 | with positive sizes flash_size is the largest end, and at least the end of the table plus the sum of the sizes |
| PartitionReader.ReadLines | arduino/hardware/espressif/esp32/tools/gen_esp32part.py:94-104 | the loop over the lines creates the definitions the reading function gives, or fails with it |
| PartitionReader.PlaceInFile | arduino/hardware/espressif/esp32/tools/gen_esp32part.py:116-123 | one definition is given its offset and size in place |
| PartitionReader.FixUp | arduino/hardware/espressif/esp32/tools/gen_esp32part.py:106-123 | the loop with last_end agrees with the layout function, the overlap errors included |
| PartitionReader.ReadCsv | arduino/hardware/espressif/esp32/tools/gen_esp32part.py:82-125 | the whole of from_csv agrees with its function |
| PartitionBinary.EntryReadBack | arduino/hardware/espressif/esp32/tools/gen_esp32part.py:357-389 | a record decodes to the entry, with the name that its 16 bytes still hold |
| PartitionBinary.NameSurvivesExactly | arduino/hardware/espressif/esp32/tools/gen_esp32part.py:357-389 | with a strict text codec a name survives its field if and only if it encodes to at most 16 bytes without NUL |
| PartitionBinary.BinaryRoundTrip | arduino/hardware/espressif/esp32/tools/gen_esp32part.py:204-231 | reading a written table gives it back if and only if every name survives, with or without the MD5 record and for any digest; the end marker is always there |
| PartitionBinary.BinaryRoundTripExactly | arduino/hardware/espressif/esp32/tools/gen_esp32part.py:204-231 | the same with the condition on the encoded names |
| PartitionBinary.Md5RecordIsNoEntry | arduino/hardware/espressif/esp32/tools/gen_esp32part.py:214-221 | the MD5 record is never a valid entry |
| PartitionBinary.Capacity | arduino/hardware/espressif/esp32/tools/gen_esp32part.py:224-231 | a table is written if and only if its fields fit and it has at most 95 records, the MD5 record included |
| PartitionBinary.AcceptsExactly | arduino/hardware/espressif/esp32/tools/gen_esp32part.py:204-222 | a file gives entries if and only if an end marker follows blocks that decode to them, or are MD5 records with the digest of the entry blocks before them |
| PartitionBinary.BadChecksumExactly | arduino/hardware/espressif/esp32/tools/gen_esp32part.py:214-218 | the checksum error is raised if and only if such blocks are followed by an MD5 record with another digest |
| PartitionBinary.OtherErrorsExactly | arduino/hardware/espressif/esp32/tools/gen_esp32part.py:206-222 | the other errors are raised if and only if such blocks are followed by the end of the file, by less than a block, or by a block that is no entry |
| PartitionBinary.DecodesExactly | arduino/hardware/espressif/esp32/tools/gen_esp32part.py:364-379 | a block is an entry if and only if it starts with the magic bytes and its name decodes, and its numbers are those of its fields |
| PartitionBinary.WrongDigestIsRefused | arduino/hardware/espressif/esp32/tools/gen_esp32part.py:214-218 | written entries followed by a record with another digest are refused |
| PartitionBinary.RestIsErased | arduino/hardware/espressif/esp32/tools/gen_esp32part.py:224-231 | in a written file every byte behind the entries but the magic and the digest of the MD5 record is 0xFF |
| PartitionBinary.ReadBinary | arduino/hardware/espressif/esp32/tools/gen_esp32part.py:204-222 | the loop over 32-byte blocks with its running digest agrees with the reading function |
| JsonBuffer.MaskRounds | arduino/libraries/ArduinoJson/src/ArduinoJson/JsonBuffer.hpp:69-76 | adding three and clearing the two low bits of a machine word, bit by bit, rounds up to a multiple of four |
| JsonBuffer.RoundsToLeast | arduino/libraries/ArduinoJson/src/ArduinoJson/JsonBuffer.hpp:69-76 | the result is the least such multiple when the sum does not wrap |
| StaticJsonBuffer.RegionsFollow | arduino/libraries/ArduinoJson/src/ArduinoJson/StaticJsonBuffer.hpp:56-88 | without wrap-around the regions of a run are inside the buffer, pairwise disjoint and after the start |
| StaticJsonBuffer.InsideExactly | arduino/libraries/ArduinoJson/src/ArduinoJson/StaticJsonBuffer.hpp:80-88 | over a whole run every region is inside the buffer if and only if no granted sum wraps around |
| StaticJsonBuffer.ArenaIsSafe | arduino/libraries/ArduinoJson/src/ArduinoJson/StaticJsonBuffer.hpp:56-88 | the three properties together for all runs since the last clear; alignment holds for every run |
| StaticJsonBuffer.WrappedRequestIsGranted | arduino/libraries/ArduinoJson/src/ArduinoJson/StaticJsonBuffer.hpp:80-82 | a run in which a sum wraps around and two regions coincide |
| StaticJsonBuffer.StaticJsonBufferBase.Alloc | arduino/libraries/ArduinoJson/src/ArduinoJson/StaticJsonBuffer.hpp:56-60 | aligns, then grants exactly when the rounded size plus the request fits; a refusal leaves the counter aligned, past the capacity at times |
| StaticJsonBuffer.StaticJsonBufferBase.Push | arduino/libraries/ArduinoJson/src/ArduinoJson/StaticJsonBuffer.hpp:80-88 | one byte is stored at the counter exactly when there is room, and no other byte changes |
| StaticJsonBuffer.StringBuilder.Append | arduino/libraries/ArduinoJson/src/ArduinoJson/StaticJsonBuffer.hpp:20-25 | undisturbed, the buffer holds as many of the appended bytes as fit, and what was before is unchanged |
| StaticJsonBuffer.StringBuilder.CStr | arduino/libraries/ArduinoJson/src/ArduinoJson/StaticJsonBuffer.hpp:27-35 | returns the start of exactly the appended bytes and a NUL if and only if all of it fits, and NULL otherwise: never a truncated string |
| DynamicArena.ServesExactly | arduino/libraries/ArduinoJson/src/ArduinoJson/DynamicJsonBuffer.hpp:117-149 | a request is served in the newest block exactly when it fits there, else in a new block of the larger of the next capacity and the request when there is memory, which doubles the next capacity |
| DynamicArena.StepIsSafe | arduino/libraries/ArduinoJson/src/ArduinoJson/DynamicJsonBuffer.hpp:118-149 | a granted region lies in the memory of its block exactly when no sum of the request wraps around |
| DynamicArena.InsideExactly | arduino/libraries/ArduinoJson/src/ArduinoJson/DynamicJsonBuffer.hpp:118-149 | over a whole run every region, behind its header, lies in the memory its block was given if and only if no sum wraps around |
| DynamicArena.RegionsFollow | arduino/libraries/ArduinoJson/src/ArduinoJson/DynamicJsonBuffer.hpp:64-67 | without wrap-around the regions of a run do not overlap and allocations are aligned |
| DynamicArena.ArenaIsSafe | arduino/libraries/ArduinoJson/src/ArduinoJson/DynamicJsonBuffer.hpp:118-149 | the three together for all runs since the arena was empty |
| DynamicArena.WrappedRequestIsGranted | arduino/libraries/ArduinoJson/src/ArduinoJson/DynamicJsonBuffer.hpp:122-130 | a run in which a sum wraps around and two regions coincide |
| DynamicJsonBuffer.DynamicJsonBufferBase.Size | arduino/libraries/ArduinoJson/src/ArduinoJson/DynamicJsonBuffer.hpp:57-61 | the loop over the chain adds up the sizes as 32-bit words |
| DynamicJsonBuffer.DynamicJsonBufferBase.AlignNextAlloc | arduino/libraries/ArduinoJson/src/ArduinoJson/DynamicJsonBuffer.hpp:118-120 | rounds the size of the newest block |
| DynamicJsonBuffer.DynamicJsonBufferBase.Alloc | arduino/libraries/ArduinoJson/src/ArduinoJson/DynamicJsonBuffer.hpp:64-67 | for every request, wrapping or not, the arena takes the step of its functional model and returns the region granted; it stays valid when no sum wraps |
| DynamicJsonBuffer.DynamicJsonBufferBase.Clear | arduino/libraries/ArduinoJson/src/ArduinoJson/DynamicJsonBuffer.hpp:71-80 | the loop over the chain leaves the capacity of the oldest block as the next one, and the arena valid |
| DynamicJsonBuffer.DynamicJsonBufferBase.AllocInHead | arduino/libraries/ArduinoJson/src/ArduinoJson/DynamicJsonBuffer.hpp:126-130 | returns the end of the newest block and bumps its size as a 32-bit word |
| DynamicJsonBuffer.DynamicJsonBufferBase.AllocInNewBlock | arduino/libraries/ArduinoJson/src/ArduinoJson/DynamicJsonBuffer.hpp:132-138 | a block of the next capacity, or larger for a larger request, becomes the head, and the next capacity doubles modulo the word size |
| DynamicJsonBuffer.DynamicJsonBufferBase.AddNewBlock | arduino/libraries/ArduinoJson/src/ArduinoJson/DynamicJsonBuffer.hpp:140-149 | links an empty block in front of the chain, with the room that the wrapped sum of header and capacity leaves |
| DynamicJsonBuffer.NewBlockDoubles | arduino/libraries/ArduinoJson/src/ArduinoJson/DynamicJsonBuffer.hpp:132-149 | a full block is followed by one of twice its capacity, so the k-th block has the initial size doubled k times, and one more block is copied |
| DynamicJsonBuffer.CopiesAreFew | arduino/libraries/ArduinoJson/src/ArduinoJson/DynamicJsonBuffer.hpp:87-100 | from an empty arena with a positive initial size a string of n bytes moves fewer than 2n bytes |
| DynamicJsonBuffer.StringBuilder.Append | arduino/libraries/ArduinoJson/src/ArduinoJson/DynamicJsonBuffer.hpp:87-100 | the appended bytes stay contiguous at the end of the newest block, in place or moved to a new one, every earlier byte of every block is unchanged, and the arena takes the step of its functional model |
| DynamicJsonBuffer.StringBuilder.CStr | arduino/libraries/ArduinoJson/src/ArduinoJson/DynamicJsonBuffer.hpp:102-105 | returns exactly the appended bytes and a NUL however many blocks were crossed; the copying bound holds |
| ArduinoText.ReplaceFirst | arduino/hardware/espressif/esp32/cores/esp32/WString.cpp:751-775 | replacing goes on behind the first occurrence |
| ArduinoText.ReplaceIsWeave | arduino/hardware/espressif/esp32/cores/esp32/WString.cpp:751-775 | replacing all is cutting the text at the leftmost, non-overlapping occurrences and joining the gaps with the replacement |
| ArduinoText.ReplaceLength | arduino/hardware/espressif/esp32/cores/esp32/WString.cpp:777-781 | the length changes by the difference once for each occurrence |
| GrowingReplace.GoodIsReplaceAll | arduino/hardware/espressif/esp32/cores/esp32/WString.cpp:788-796 | without a bad suffix, replacing from the end gives the leftmost replacement of every text |
| GrowingReplace.BorderedDiffers | arduino/hardware/espressif/esp32/cores/esp32/WString.cpp:788-796 | a search string with a border, in two overlapping copies, is a text on which it does not |
| GrowingReplace.CompletedDiffers | arduino/hardware/espressif/esp32/cores/esp32/WString.cpp:788-796 | so is an occurrence behind a start of the search string that the replacement completes again |
| GrowingReplace.LastAdds | arduino/hardware/espressif/esp32/cores/esp32/WString.cpp:777-781 | the counting loop counts the last occurrence once, as itself or as one that it overlaps |
| GrowingReplace.CleanKeepsLength | arduino/hardware/espressif/esp32/cores/esp32/WString.cpp:788-796 | when no end of the search string but itself starts the replacement string, the result has exactly the length that was counted |
| GrowingReplace.CompletedGrows | arduino/hardware/espressif/esp32/cores/esp32/WString.cpp:777-796 | otherwise there is a text that the counting loop changes once and the loop from the end at least twice |
| GrowingReplace.NeverOutgrowsExactly | arduino/hardware/espressif/esp32/cores/esp32/WString.cpp:776-797 | the loop from the end never makes a text without NUL longer than the counted size if and only if no end of the search string but itself is a start of the replacement string |
| GrowingReplace.StaysInBufferExactly | arduino/hardware/espressif/esp32/cores/esp32/WString.cpp:776-797 | the same for the buffer made for that size, which is rounded up to 16 bytes: the result always fits if and only if that holds |
| GrowingReplace.OneByteIsReplaced | arduino/hardware/espressif/esp32/cores/esp32/WString.cpp:751-798 | a search string of one character is always replaced from the front |
| GrowingReplace.ReplacesLeftmostExactly | arduino/hardware/espressif/esp32/cores/esp32/WString.cpp:751-798 | replace is the leftmost replacement of every text without NUL if and only if it does not grow the text, or no end of the search string but itself is a start of the search or the replacement string |
| ArduinoString.CopyDown | arduino/hardware/espressif/esp32/cores/esp32/WString.cpp:768-775 | copying down byte by byte in address order moves the old bytes although the places overlap |
| ArduinoString.String.ChangeBuffer | arduino/hardware/espressif/esp32/cores/esp32/WString.cpp:167-187 | the capacity is the next multiple of sixteen less one, the text is kept or cut to it, and the terminator is there; failure changes nothing |
| ArduinoString.String.Copy | arduino/hardware/espressif/esp32/cores/esp32/WString.cpp:193-202 | the characters and their NUL are stored when there is room or memory, and otherwise the string is emptied |
| ArduinoString.String.Reserve | arduino/hardware/espressif/esp32/cores/esp32/WString.cpp:153-165 | room for the size is made or was there, and the text is unchanged |
| ArduinoString.String.LastIndexOf | arduino/hardware/espressif/esp32/cores/esp32/WString.cpp:693-712 | the loop over strstr returns the greatest index up to the bound where the string occurs, or -1 |
| ArduinoString.ReplaceStep | arduino/hardware/espressif/esp32/cores/esp32/WString.cpp:760-773 | one turn of the equal-length or the shrinking loop: the written part stays the replacement of the read part, and the unread part is untouched |
| ArduinoString.ReplaceEnd | arduino/hardware/espressif/esp32/cores/esp32/WString.cpp:775 | copying the unread rest completes the text and its terminator |
| ArduinoString.String.ReplaceSameLength | arduino/hardware/espressif/esp32/cores/esp32/WString.cpp:759-763 | refines the leftmost replacement in place |
| ArduinoString.String.ReplaceShrinking | arduino/hardware/espressif/esp32/cores/esp32/WString.cpp:764-775 | refines the leftmost replacement in place, with two pointers |
| ArduinoString.String.GrownSize | arduino/hardware/espressif/esp32/cores/esp32/WString.cpp:777-784 | the counting loop gives the length of the leftmost replacement, and equals the length only when nothing occurs |
| ArduinoString.String.ReplaceLast | arduino/hardware/espressif/esp32/cores/esp32/WString.cpp:789-795 | one turn of that loop keeps the result still to come, or stops because that is longer than the capacity |
| ArduinoString.String.GrowInPlace | arduino/hardware/espressif/esp32/cores/esp32/WString.cpp:788-796 | the loop from the end refines the replacement from the end; it would leave the buffer exactly when that is longer than the capacity, and never does when the counted size fits and no end of the search string starts the replacement string |
| ArduinoString.String.ReplaceGrowing | arduino/hardware/espressif/esp32/cores/esp32/WString.cpp:776-797 | grows to the rounded size when memory allows and otherwise leaves the text as it was; leaves the buffer exactly when the result is longer than the size made for it, and never when no end of the search string starts the replacement string |
| ArduinoString.String.Replace | arduino/hardware/espressif/esp32/cores/esp32/WString.cpp:751-798 | the whole of replace keeps length, terminator and capacity consistent, computes the replacement its function says, and cannot leave the buffer unless an end of the search string starts the replacement string |
| ArduinoString.ReplaceInNew | arduino/hardware/espressif/esp32/cores/esp32/WString.cpp:751-798 | a growing replace in a new String leaves the buffer if and only if the result is longer than the room for the counted size |
| ArduinoString.OverrunExample | arduino/hardware/espressif/esp32/cores/esp32/WString.cpp:776-797 | a String in which replace writes past the buffer |
| ArduinoNumber.DigitsDenote | arduino/hardware/espressif/esp32/cores/esp32/Print.cpp:245-265 | the digits denote the number in every base up to 36 |
| ArduinoNumber.PrintedDenotes | arduino/hardware/espressif/esp32/cores/esp32/Print.cpp:107-121 | a long is printed as sign and magnitude in base 10 and as its 32-bit pattern in every other base, without leading zeros |
| ArduinoNumber.DigitsFit32 | arduino/hardware/espressif/esp32/cores/esp32/Print.cpp:247-248 | an unsigned 32-bit number has at most 32 digits in any base, so the buffer of 33 holds them |
| ArduinoNumber.NoLeadingZero | arduino/hardware/espressif/esp32/cores/esp32/Print.cpp:245-265 | decimal text starts with a zero only for zero |
| ArduinoNumber.NumberRoundTrip | arduino/hardware/espressif/esp32/cores/esp32/Stream.cpp:144-179 | for every 32-bit long, its decimal text behind anything without digits or signs is parsed to it, and parsing stops at what follows, if and only if that is delimited |
| ArduinoNumber.SkipCharacterJoins | arduino/hardware/espressif/esp32/cores/esp32/Stream.cpp:144-147 | a skip character followed by a digit is no delimiter: the digits join |
| ArduinoNumber.ParseIntReads | arduino/hardware/espressif/esp32/cores/esp32/Stream.cpp:151-179 | with any skip character: the number runs from the first digit or minus over digits and skip characters, its value is that of the digits that are not skipped, with the sign, as a 32-bit long, and the rest is left |
| ArduinoNumber.ParseIntNothing | arduino/hardware/espressif/esp32/cores/esp32/Stream.cpp:151-158 | without a digit or minus everything is read and the result is zero |
| ArduinoStream.PrintNumber | arduino/hardware/espressif/esp32/cores/esp32/Print.cpp:245-265 | filling the buffer backwards gives the digits, without leaving it |
| ArduinoStream.Print | arduino/hardware/espressif/esp32/cores/esp32/Print.cpp:107-121 | sign and digits of a long; base 0 writes one byte |
| ArduinoStream.Stream.PeekNextDigit | arduino/hardware/espressif/esp32/cores/esp32/Stream.cpp:60-76 | discards up to the first digit or minus sign |
| ArduinoStream.Stream.ParseInt | arduino/hardware/espressif/esp32/cores/esp32/Stream.cpp:151-179 | the loop agrees with the parsing function on every stream and skip character: value, sign and bytes left |
| ArduinoStream.Stream.FindUntil | arduino/hardware/espressif/esp32/cores/esp32/Stream.cpp:108-139 | the loop agrees with the search function on every stream, target and terminator |
| StreamFind.SearchIsSound | arduino/hardware/espressif/esp32/cores/esp32/Stream.cpp:108-139 | for every target and terminator, when the target is found the bytes read last are the target |
| StreamFind.StepIsSound | arduino/hardware/espressif/esp32/cores/esp32/Stream.cpp:119-125 | the kept index is always a prefix of the target that the bytes read end with |
| StreamFind.StepIsLongest | arduino/hardware/espressif/esp32/cores/esp32/Stream.cpp:119-125 | for a target without bad border it is the longest one |
| StreamFind.FindsFirstExactly | arduino/hardware/espressif/esp32/cores/esp32/Stream.cpp:108-139 | in every stream without NUL the search ends with the first occurrence, if and only if the target has no bad border |
| StreamFind.FindReadsToFirst | arduino/hardware/espressif/esp32/cores/esp32/Stream.cpp:87-90 | the same for find on any stream, which ends at a NUL byte |
| StreamFind.BadBorderMisses | arduino/hardware/espressif/esp32/cores/esp32/Stream.cpp:119-125 | for a bad border, a stream that contains the target and in which it is not found |
| StreamFind.FreshFirstByte | arduino/hardware/espressif/esp32/cores/esp32/Stream.cpp:119-125 | a target whose first byte does not come back has no bad border |
| StreamFind.SearchIsBothScans | arduino/hardware/espressif/esp32/cores/esp32/Stream.cpp:108-139 | the search ends with the target or the terminator, whichever ends first, the target winning at the same byte, and leaves exactly what follows |
| StreamFind.ScanAttempts | arduino/hardware/espressif/esp32/cores/esp32/Stream.cpp:114-125 | any target: a match that breaks off is given up, and the byte that broke it is tried again as a first byte |
| StreamFind.TermScanAttempts | arduino/hardware/espressif/esp32/cores/esp32/Stream.cpp:127-134 | any terminator: a match that breaks off is given up together with the byte that broke it |
| StreamFind.TermScanIsSound | arduino/hardware/espressif/esp32/cores/esp32/Stream.cpp:127-134 | when the search stops at the terminator, that is what was read last |
| StreamFind.TerminatesFirstExactly | arduino/hardware/espressif/esp32/cores/esp32/Stream.cpp:127-134 | in every stream without NUL the terminator stops the search at its first end, if and only if it repeats a single byte |
| StreamFind.FreshTerminatorStops | arduino/hardware/espressif/esp32/cores/esp32/Stream.cpp:127-134 | any terminator stops the search at its first copy when its first byte has not been read before |
| StreamFind.FindUntilReadsToFirst | arduino/hardware/espressif/esp32/cores/esp32/Stream.cpp:108-139 | for a target without bad border and such a terminator, on any stream: the first end of either decides, up to a NUL |
| StreamFind.TerminatorFirst | arduino/hardware/espressif/esp32/cores/esp32/Stream.cpp:108-139 | looking for OK until END in ENDOK stops behind END |

## Left out

- Serial lines, sockets, HTTP, resets, timeouts, retries, progress output and argument parsing: device and network plumbing.
- The contents of digests, of UTF-8 and of file systems: parameters of the model.
- ELF reading, chip registers, efuses, stub blobs, the ESP8266 image formats and the erase-size workaround.
- `file_offs`, `include_in_checksum` and the warnings printed for unusual segments: they do not change what is written.
- ImageReread.LoadOfSaveIsExact: gives a sufficient condition on one image; the exact ones are LoadOfSaveIsExactWhen, on its emitted segments, and RereadsExactly, over all word-sized RAM segments.
- TestRunner.RunContext.RunTest: section filters, abort limits, generators, the index tracker, reporters and signals are not modelled; source files are not part of the names of sections, only names and lines.
- PythonText.PyIntOfDec: letters and digits outside ASCII are not modelled.
- PartitionTable.CsvRoundTrip: environment variables are not expanded; only the error for a variable that is left is modelled.
- PartitionTable.Verify: the warning about names that look like subtypes is not an error and is left out.
- DynamicJsonBuffer.StringBuilder.Append: says nothing about appending after an allocation has failed, nor about a new block whose header and capacity wrap around, the guard that ArenaIsSafe proves exact.
- ArduinoString.String.Replace: the search and replacement strings are values, so a String passed to its own replace is not modelled; where it would write past its buffer the model stops and says so.
- ArduinoString.String.ChangeBuffer: lengths are unbounded, so wrap-around near the limit of an unsigned int is not modelled.
- ArduinoStream.Stream.ParseInt: a stream that delivers more bytes after a timeout is not modelled; the end is one timeout.
- Floating point printing and parsing, base64 and `MD5Builder`.
- The ArduinoJson parser, serializer and object model.
