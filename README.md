# DataRecord — a verified model of the SODAQ flash data log

DataRecord is the storage layer of a SODAQ weather-station logger. It
keeps timestamped measurement records in the pages of an Atmel data flash
chip. Every page starts with a header: a timestamp, a data version and the
6-byte magic `"SODAQ\0"`. Fixed-size record slots follow the header. A
record's first field is its timestamp, and the timestamp `0xFFFFFFFF`
(erased flash) marks an empty slot.

The model covers the reading side of the log:
- the chunked transfers that copy a page prefix, a header or one record
  slot out of the chip's page buffer, at most 16 bytes per driver call;
- the validity tests for headers and records;
- the ring successor of a page;
- the recovery scan `findCurAndUploadPage`. After a restart it finds the
  page to upload from and the page to write to, using the page headers
  alone.

Modules:
- `Layout` (layout.dfy) covers the page format: the field widths, the
  little-endian byte encoding of headers and records, `strncmp` on the
  magic, the validity tests, the record slot arithmetic and `getNextPage`.
- `Flash` (flash.dfy) is a stand-in for the data flash driver. Its class
  `DataFlash` holds the medium (`pages`) and the chip's page buffer 1
  (`buf1`). A ghost `log` records every driver call.
- `Recovery` (recovery.dfy) states what the recovery scan computes as
  functions over the sequence of page headers: pass 1 (`Oldest`), pass 2
  (`FreeFrom`) and the whole result (`Recover`). It also gives an
  independent description of the right answer (`RecoveryCorrect`), and
  proves the two agree in both directions.
- `DataRecord` (data_record.dfy) holds the imperative code. It has the
  chunk loop, `readPage`, `readPageHeader`, `readPageNthRecord`,
  `isValidUploadPage`, `getPageTS`, and the two scan loops of
  `findCurAndUploadPage`, each proved against the functions above.

Assumptions:
- The number of pages `DF_NR_PAGES` is the length of the medium
  (`|pages|`), so every property holds for any page count of at least one.
- `DF_PAGE_SIZE` is 528, the page size of the AT45DB161D chip.
- `sizeof(myHeader)` is 14 and `sizeof(myRecord)` is 31. These are the
  field widths summed with no padding, as on the 8-bit AVR target, which
  gives 16 records per page.
- Multi-byte fields are little-endian.

Facts about the code that the model relies on:
- The header has no page-number field. It is timestamp, version and magic
  (DataRecord.h:8-13).
- The code tests the magic with `strncmp` (DataRecord.cpp:95), which stops
  at the first NUL, not with a fixed-length compare. `Layout.StrnEqualWithoutEarlyNul` proves
  the two agree for `"SODAQ\0"`, because that constant has no NUL before
  its last byte.
- There is one on-medium format, version 2 (DataRecord.h:7). The model has
  no format parameter.

## Model

| member | source | states |
|---|---|---|
| Layout.ToUint32 | DataRecord.cpp:74 | conversion of a negative int to `uint32_t` wraps modulo 2^32; values already in range are unchanged |
| Layout.AsInt32 | DataRecord.cpp:18 | the `(int32_t)` cast reads a 32-bit word as two's complement: the result lies in the int32 range and converts back to the same word |
| Layout.EncodeU32 | DataRecord.h:10 | a 32-bit field takes 4 bytes and decodes back to its value |
| Layout.EncodeDecodeU32 | DataRecord.h:10 | every 4 bytes are the encoding of the value they decode to |
| Layout.EncodeHeader | DataRecord.h:8-13 | a header occupies sizeof(myHeader) bytes with the magic in its last 6 bytes |
| Layout.DecodeHeader | DataRecord.h:8-13 | the magic of a decoded header is the last 6 bytes of the header image |
| Layout.HeaderRoundTrip | DataRecord.h:8-13 | decoding an encoded header gives the header back |
| Layout.HeaderBytesRoundTrip | DataRecord.h:8-13 | encoding a decoded header image gives the bytes back, so the layout is a bijection |
| Layout.EncodeRecord | DataRecord.h:16-41 | a record occupies sizeof(myRecord) bytes; after the leading timestamp come the payload bytes |
| Layout.DecodeRecord | DataRecord.h:16-41 | the payload of a decoded record is everything after the first 4 bytes |
| Layout.RecordRoundTrip | DataRecord.h:16-41 | decoding an encoded record gives the record back |
| Layout.RecordBytesRoundTrip | DataRecord.h:16-41 | encoding a decoded record image gives the bytes back |
| Layout.StrnEqualWithoutEarlyNul | DataRecord.cpp:95 | `strncmp` over n bytes against a string with no NUL before its last byte reports equality exactly when the n bytes are equal |
| Layout.IsValidHeader | DataRecord.cpp:93-100 | a header is valid exactly when its 6 magic bytes are `'S','O','D','A','Q',0`, whatever its timestamp and version |
| Layout.IsValidRecord | DataRecord.cpp:16-22 | a record is invalid exactly when its timestamp is 0xFFFFFFFF; 0xFFFFFFFE and every other value are valid |
| Layout.NextPage | DataRecord.h:47-54 | for a page in range, the next page is in range |
| Layout.NextPageIsSuccessorMod | DataRecord.h:47-54 | for a page in range, the next page is (page + 1) mod DF_NR_PAGES |
| Layout.SlotCountExact | DataRecord.h:45 | for any page, header and record sizes, the integer quotient of the record space by the record size fits and is maximal |
| Layout.RecordsPerPageFits | DataRecord.h:45 | NR_RECORDS_PER_PAGE records fit behind the header, and one more would cross the page end |
| Layout.CrossesPageEndIff | DataRecord.cpp:70-76 | the page-boundary test of readPageNthRecord fires exactly for nth >= NR_RECORDS_PER_PAGE |
| Layout.SlotBytes | DataRecord.cpp:70-71 | a record slot that does not cross the page end spans sizeof(myRecord) bytes |
| Layout.RecordsImageSlot | DataRecord.h:45 | slot i of a run of records written back to back holds the encoding of record i |
| Layout.ErasedRecordInvalid | DataRecord.cpp:16-22 | a slot of erased flash (all bytes 0xFF) decodes to the sentinel timestamp and is not a valid record |
| Layout.PageImageReadBack | DataRecord.h:8-45 | on a page written as header plus k records, the header reads back unchanged, slots below k read back their records, and every other slot is invalid |
| Flash.DataFlash.ReadPageToBuf1 | DataRecord.cpp:33 | selecting a page puts exactly that page into buffer 1 and logs one page selection |
| Flash.DataFlash.ReadStrBuf1 | DataRecord.cpp:38 | copying count bytes (at most 16) from buffer 1 at offset into dest at pos changes only dest[pos..pos+count] and logs one copy |
| DataRecord.ChunksCount | DataRecord.cpp:36-42 | the chunk loop issues ceil(size / 16) driver copies |
| DataRecord.ChunksTileRange | DataRecord.cpp:36-42 | every driver copy of the chunk loop moves 1 to 16 bytes, each starts where the previous one ended, and together they cover exactly the requested range |
| DataRecord.ReadChunks | DataRecord.cpp:34-42 | the chunk loop terminates, leaves dest[0..size) equal to the buffer bytes [offset, offset+size), leaves the rest of dest alone, and issues exactly the chunk copies above |
| DataRecord.ReadPage | DataRecord.cpp:31-43 | buffer[0..size) holds the first size bytes of the page, the rest of buffer is unchanged, and the driver saw one page selection and then the chunk copies |
| DataRecord.ReadPageHeader | DataRecord.cpp:48-63 | hdr holds the first sizeof(myHeader) bytes of the page, and the result is true exactly when that header's magic is valid |
| DataRecord.IsValidUploadPage | DataRecord.cpp:107-113 | true exactly when the page's header is valid, i.e. the same answer as readPageHeader |
| DataRecord.ReadPageNthRecord | DataRecord.cpp:68-88 | a slot crossing the page end gives false and the sentinel timestamp in rec with no flash access; otherwise rec holds the slot's bytes and the result is true exactly when the timestamp is not the sentinel |
| DataRecord.GetPageTS | DataRecord.cpp:182-190 | 0xFFFFFFFF with no flash access for a negative page, otherwise the timestamp field of that page's header |
| DataRecord.ReadHeader | DataRecord.cpp:134 | hdr holds the first sizeof(myHeader) bytes of the page, the header returned is that page's header, buffer 1 holds the page, and the driver saw one page selection and then the chunk copies of the header |
| DataRecord.FindOldestPage | DataRecord.cpp:132-148 | pass 1 returns the page Oldest describes over all page headers; afterwards buffer 1 holds the last page, hdr holds that page's header bytes, and the driver log gained one header read per page in index order |
| DataRecord.FindFreePage | DataRecord.cpp:150-160 | pass 2 returns the page FreeFrom describes for a full ring walk from the upload page, or -1; the driver log gained one header read per page walked, in ring order from the upload page, stopping at the page returned (or after all pages when it is -1), and buffer 1 holds the page where the walk stopped |
| DataRecord.FindCurAndUploadPage | DataRecord.cpp:121-180 | the cursors equal Recover over the page headers and satisfy RecoveryCorrect |
| Recovery.RingDist | DataRecord.cpp:154 | the number of getNextPage steps from one page to another is below DF_NR_PAGES and lands on the target |
| Recovery.NextPageIterAdvances | DataRecord.h:47-54 | d steps of getNextPage from a page, for d up to DF_NR_PAGES, advance by d and wrap once past the end |
| Recovery.RingWalkVisitsEachPageOnce | DataRecord.cpp:154 | DF_NR_PAGES steps return to the start, and the first DF_NR_PAGES steps visit every page exactly once |
| Recovery.RingDistStep | DataRecord.cpp:154 | one step forward shortens the ring distance to every other page by one |
| Recovery.Oldest | DataRecord.cpp:133-148 | after pages 0..k-1 the kept upload page is -1 or a page below k with a valid header |
| Recovery.OldestCharacterized | DataRecord.cpp:133-148 | the upload page is -1 exactly when no page has a valid header; otherwise it has a valid header, a timestamp no larger than any valid header's, and strictly smaller than that of every valid page below it |
| Recovery.OldestUnique | DataRecord.cpp:142 | the strict comparison makes the oldest page unique: among equal minima it is the lowest index |
| Recovery.FreeFrom | DataRecord.cpp:154-160 | pass 2 yields -1 or a page without a valid header |
| Recovery.FreeFromCharacterized | DataRecord.cpp:150-165 | pass 2 yields -1 exactly when every page within the walk has a valid header; otherwise it is the first header-less page in ring order from the start, and every page before it on the walk is valid |
| Recovery.Recover | DataRecord.cpp:121-174 | the current page always lies in [0, DF_NR_PAGES) and the upload page in [-1, DF_NR_PAGES) |
| Recovery.RecoverCorrect | DataRecord.cpp:150-174 | the scan result is correct: with no valid header, a random current page and upload -1; otherwise the oldest page as upload page and the first header-less page after it as current page, which then differs from the upload page, or the upload page itself when every header is valid |
| Recovery.RecoveryCorrectUnique | DataRecord.cpp:121-174 | any cursors meeting that description are the scan's result, so the description fixes the answer |
| Recovery.OpenedPageHeader | DataRecord.h:6-13 | a freshly opened page (valid header, no records) reads back a valid header |
| Recovery.ErasedPageHeader | DataRecord.cpp:93-100 | an erased page has no valid header |
| Recovery.ScenarioRingFull | DataRecord.cpp:133-165 | four valid pages with timestamps 40, 10, 30, 20 give upload page 1 and, the ring being full, current page 1 |
| Recovery.ScenarioGap | DataRecord.cpp:133-165 | pages 0 and 2 valid with timestamps 100 and 50 and pages 1 and 3 erased give upload page 2 and current page 3 |
| Recovery.ScenarioBlank | DataRecord.cpp:166-171 | four erased pages give upload page -1 and current page randomNum mod 4 |

## Left out

- The Sodaq_dataflash driver is replaced by the `Flash.DataFlash` stand-in: a selected page buffer and a byte-range copy that requires at most 16 bytes. The driver's header file and the chip protocol are not part of this model.
- DF_NR_PAGES is taken from the length of the modelled medium and DF_PAGE_SIZE is fixed at 528. The driver header defining both is not part of this model.
- Diagnostics are not modelled: `printRecord`, `readAllPages`, `dumpPage`, the `DIAGPRINT` output and the `millis()` timing only print or measure.
- The payload fields, including the `float` temperature and pressure, are opaque bytes; only the leading timestamp is interpreted.
- Native struct padding and byte order are not derived. The sizes are given constants and fields are decoded little-endian.
- The unused global record `rec` is not modelled.
- ReadPageNthRecord: takes nth as a natural number. The C code converts a negative nth, or a very large one, through `size_t` arithmetic that wraps; that wrap is not modelled.
- FindCurAndUploadPage: does not state the final contents of buffer 1 or the driver log after the scan; it states only the cursors. Each of its two passes states both.
- FindFreePage: does not state the final contents of `hdr`, which is scratch storage local to `findCurAndUploadPage` (DataRecord.cpp:130) and is not read after the scan.
- FindOldestPage, FindFreePage: the two loops of `findCurAndUploadPage` are separate methods, and the output parameters `curPage`/`uploadPage` become the method's two results.
- `randomNum` is a parameter; where the caller gets it from is not modelled.
- Concurrency and interrupts during a scan are not modelled; the flash contents are constant while it runs.
