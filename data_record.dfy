/**
 * The reading side of the data log: chunked reads of a page into a caller
 * buffer, reading a page header or one record slot, the timestamp of a
 * page, and the recovery scan that finds the current and upload pages
 * after a restart.  Caller structures (myHeader, myRecord) are byte arrays
 * of their size; their fields are read with the Layout decoders.
 */
module DataRecord {
  import opened Layout
  import opened Flash
  import opened Recovery

  // ---------------------------------------------------------------------
  // Chunked transfers

  /** The driver copies a read of `size` bytes at `offset` is split into. */
  function Chunks(offset: nat, size: nat): seq<Op>
    decreases size
  {
    if size == 0 then []
    else
      var n := if size >= MAX_CHUNK then MAX_CHUNK else size;
      [CopyChunk(offset, n)] + Chunks(offset + n, size - n)
  }

  function OpBytes(op: Op): nat
  {
    if op.CopyChunk? then op.count else 0
  }

  /** Bytes moved by a sequence of driver operations. */
  function TotalBytes(ops: seq<Op>): nat
  {
    if ops == [] then 0 else OpBytes(ops[0]) + TotalBytes(ops[1..])
  }

  /**
   * ops copies the byte range [from, to) in order: every operation is a
   * copy of 1 to MAX_CHUNK bytes that starts where the previous one ended,
   * the first at `from`, and together they move to - from bytes.
   */
  ghost predicate TilesRange(ops: seq<Op>, from: int, to: int)
  {
    (forall i | 0 <= i < |ops| ::
       ops[i].CopyChunk? && 1 <= ops[i].count <= MAX_CHUNK &&
       ops[i].offset == from + TotalBytes(ops[..i])) &&
    from + TotalBytes(ops) == to
  }

  /** The chunk loop issues the fewest transfers the limit allows. */
  lemma {:induction false} ChunksCount(offset: nat, size: nat)
    ensures |Chunks(offset, size)| == (size + MAX_CHUNK - 1) / MAX_CHUNK
    decreases size
  {
    if size > 0 {
      var n := if size >= MAX_CHUNK then MAX_CHUNK else size;
      ChunksCount(offset + n, size - n);
    }
  }

  /** The transfers of the chunk loop tile the requested range in order. */
  lemma {:induction false} ChunksTileRange(offset: nat, size: nat)
    ensures TilesRange(Chunks(offset, size), offset, offset + size)
    decreases size
  {
    if size > 0 {
      var n := if size >= MAX_CHUNK then MAX_CHUNK else size;
      var ops, rest := Chunks(offset, size), Chunks(offset + n, size - n);
      ChunksTileRange(offset + n, size - n);
      assert ops == [CopyChunk(offset, n)] + rest;
      assert ops[1..] == rest;
      forall i | 0 < i < |ops|
        ensures ops[i] == rest[i - 1]
        ensures TotalBytes(ops[..i]) == n + TotalBytes(rest[..i - 1])
      {
        assert ops[..i][1..] == rest[..i - 1];
      }
    }
  }

  /**
   * The loop shared by readPage, readPageHeader and readPageNthRecord:
   * copy `size` bytes of buffer 1 from `offset` on into dest, at most
   * MAX_CHUNK bytes per driver call.
   */
  method ReadChunks(df: DataFlash, offset: nat, dest: array<uint8>, size: nat)
    requires df.Valid() && offset + size <= DF_PAGE_SIZE && size <= dest.Length
    modifies df`log, dest
    ensures df.Valid() && df.buf1 == old(df.buf1)
    ensures dest[..size] == df.buf1[offset..offset + size]
    ensures dest[size..] == old(dest[size..])
    ensures df.log == old(df.log) + Chunks(offset, size)
  {
    var byteOffset := offset;
    var pos := 0;
    var left := size;
    while left > 0
      invariant pos <= size && byteOffset == offset + pos && left == size - pos
      invariant df.Valid() && df.buf1 == old(df.buf1)
      invariant forall i | 0 <= i < pos :: dest[i] == df.buf1[offset + i]
      invariant forall i | pos <= i < dest.Length :: dest[i] == old(dest[i])
      invariant df.log + Chunks(byteOffset, left) == old(df.log) + Chunks(offset, size)
      decreases left
    {
      var n := if left >= MAX_CHUNK then MAX_CHUNK else left;
      ghost var issued := df.log;
      assert Chunks(byteOffset, left) == [CopyChunk(byteOffset, n)] + Chunks(byteOffset + n, left - n);
      df.ReadStrBuf1(byteOffset, dest, pos, n);
      assert df.log + Chunks(byteOffset + n, left - n) == issued + Chunks(byteOffset, left);
      byteOffset := byteOffset + n;
      pos := pos + n;
      left := left - n;
    }
  }

  // ---------------------------------------------------------------------
  // Page, header and record reads

  /** readPage: the first `size` bytes of a page into buffer. */
  method ReadPage(df: DataFlash, page: int, buffer: array<uint8>, size: nat)
    requires df.Valid() && 0 <= page < |df.pages|
    requires size <= DF_PAGE_SIZE && size <= buffer.Length
    modifies df, buffer
    ensures df.Valid() && df.buf1 == df.pages[page]
    ensures buffer[..size] == df.pages[page][..size]
    ensures buffer[size..] == old(buffer[size..])
    ensures df.log == old(df.log) + [SelectPage(page)] + Chunks(0, size)
  {
    df.ReadPageToBuf1(page);
    ReadChunks(df, 0, buffer, size);
  }

  /** readPageHeader: the header bytes of a page into hdr, and whether they form a valid header. */
  method ReadPageHeader(df: DataFlash, page: int, hdr: array<uint8>) returns (valid: bool)
    requires df.Valid() && 0 <= page < |df.pages| && hdr.Length == HEADER_SIZE
    modifies df, hdr
    ensures df.Valid() && df.buf1 == df.pages[page]
    ensures hdr[..] == df.pages[page][..HEADER_SIZE]
    ensures valid <==> HeaderOf(df.pages[page]).magic == HEADER_MAGIC
    ensures df.log == old(df.log) + [SelectPage(page)] + Chunks(0, HEADER_SIZE)
  {
    df.ReadPageToBuf1(page);
    ReadChunks(df, 0, hdr, HEADER_SIZE);
    valid := IsValidHeader(DecodeHeader(hdr[..]));
  }

  /** isValidUploadPage: whether a page holds a valid header (through readPageHeader). */
  method IsValidUploadPage(df: DataFlash, page: int) returns (valid: bool)
    requires df.Valid() && 0 <= page < |df.pages|
    modifies df
    ensures df.Valid() && df.buf1 == df.pages[page]
    ensures valid <==> HeaderOf(df.pages[page]).magic == HEADER_MAGIC
    ensures df.log == old(df.log) + [SelectPage(page)] + Chunks(0, HEADER_SIZE)
  {
    var hdr := new uint8[HEADER_SIZE];
    var _ := ReadPageHeader(df, page, hdr);
    valid := IsValidHeader(DecodeHeader(hdr[..]));
  }

  /**
   * readPageNthRecord: record slot nth of a page into rec, and whether it
   * is a valid record.  A slot that runs past the page end is refused
   * without touching the flash: rec gets the sentinel timestamp and the
   * answer is false.
   */
  method ReadPageNthRecord(df: DataFlash, page: int, nth: nat, rec: array<uint8>) returns (valid: bool)
    requires df.Valid() && rec.Length == RECORD_SIZE
    requires !CrossesPageEnd(nth) ==> 0 <= page < |df.pages|
    modifies df, rec
    ensures df.Valid()
    ensures CrossesPageEnd(nth) ==>
      !valid && rec[..] == EncodeU32(TS_SENTINEL) + old(rec[4..]) &&
      DecodeRecord(rec[..]).ts == TS_SENTINEL &&
      df.buf1 == old(df.buf1) && df.log == old(df.log)
    ensures !CrossesPageEnd(nth) ==>
      rec[..] == SlotBytes(df.pages[page], nth) &&
      (valid <==> DecodeRecord(rec[..]).ts != TS_SENTINEL) &&
      df.buf1 == df.pages[page] &&
      df.log == old(df.log) + [SelectPage(page)] + Chunks(SlotOffset(nth), RECORD_SIZE)
  {
    var byteOffset := SlotOffset(nth);
    var size := RECORD_SIZE;
    if byteOffset + size > DF_PAGE_SIZE {
      // rec->ts = -1
      var ts := EncodeU32(ToUint32(-1));
      rec[0], rec[1], rec[2], rec[3] := ts[0], ts[1], ts[2], ts[3];
      assert rec[..] == ts + old(rec[4..]);
      assert rec[..][..4] == ts;
      return false;
    }
    df.ReadPageToBuf1(page);
    ReadChunks(df, byteOffset, rec, size);
    valid := IsValidRecord(DecodeRecord(rec[..]));
  }

  /** getPageTS: the header timestamp of a page, or the sentinel for a negative page. */
  method GetPageTS(df: DataFlash, page: int) returns (ts: uint32)
    requires df.Valid() && page < |df.pages|
    modifies df
    ensures df.Valid()
    ensures page < 0 ==> ts == TS_SENTINEL && df.buf1 == old(df.buf1) && df.log == old(df.log)
    ensures page >= 0 ==>
      ts == HeaderOf(df.pages[page]).ts && df.buf1 == df.pages[page] &&
      df.log == old(df.log) + [SelectPage(page)] + Chunks(0, HEADER_SIZE)
  {
    if page < 0 {
      return ToUint32(-1);
    }
    var hdr := new uint8[HEADER_SIZE];
    ReadPage(df, page, hdr, HEADER_SIZE);
    ts := DecodeHeader(hdr[..]).ts;
  }

  // ---------------------------------------------------------------------
  // Recovery scan

  /** readPage of a header-sized prefix into hdr, and the header it holds. */
  method ReadHeader(df: DataFlash, page: int, hdr: array<uint8>, ghost hs: seq<Header>) returns (h: Header)
    requires df.Valid() && 0 <= page < |df.pages| && hdr.Length == HEADER_SIZE
    requires |hs| == |df.pages| && forall p | 0 <= p < |hs| :: hs[p] == HeaderOf(df.pages[p])
    modifies df, hdr
    ensures df.Valid() && h == hs[page]
    ensures df.buf1 == df.pages[page] && hdr[..] == df.pages[page][..HEADER_SIZE]
    ensures df.log == old(df.log) + HeaderRead(page)
  {
    ReadPage(df, page, hdr, HEADER_SIZE);
    assert hdr[..] == hdr[..HEADER_SIZE];
    h := DecodeHeader(hdr[..]);
  }

  /** The driver calls of reading the header of one page: select it, then copy its header. */
  function HeaderRead(page: nat): seq<Op>
  {
    [SelectPage(page)] + Chunks(0, HEADER_SIZE)
  }

  /**
   * The driver calls of reading the headers of k pages, one after the
   * other, walking the ring with getNextPage from page `start`.
   */
  function WalkReads(start: int, k: nat, n: int): seq<Op>
    requires 0 <= start < n
  {
    if k == 0 then [] else WalkReads(start, k - 1, n) + HeaderRead(NextPageIter(start, k - 1, n))
  }

  /** One more header read extends a log that ends in a walk of k reads to one that ends in k + 1. */
  lemma WalkReadsStep(log: seq<Op>, start: int, k: nat, n: int)
    requires 0 <= start < n
    ensures log + WalkReads(start, k + 1, n) == log + WalkReads(start, k, n) + HeaderRead(NextPageIter(start, k, n))
  {
  }

  /**
   * Pass 1 of findCurAndUploadPage: read the header of every page in
   * index order and keep the valid one with the smallest timestamp; a later
   * page replaces the one kept only with a strictly smaller timestamp.
   */
  method FindOldestPage(df: DataFlash, hdr: array<uint8>) returns (uploadPage: int)
    requires df.Valid() && hdr.Length == HEADER_SIZE
    modifies df, hdr
    ensures df.Valid()
    ensures uploadPage == Oldest(Headers(df.pages), |df.pages|)
    ensures df.buf1 == df.pages[|df.pages| - 1]
    ensures hdr[..] == df.pages[|df.pages| - 1][..HEADER_SIZE]
    ensures df.log == old(df.log) + WalkReads(0, |df.pages|, |df.pages|)
  {
    ghost var hs, log0 := Headers(df.pages), df.log;
    var myUploadPage := -1;
    var uploadTs: uint32 := 0;
    var page := 0;
    while page < |df.pages|
      invariant 0 <= page <= |df.pages|
      invariant df.Valid()
      invariant myUploadPage == Oldest(hs, page)
      invariant myUploadPage >= 0 ==> uploadTs == hs[myUploadPage].ts
      invariant page > 0 ==> df.buf1 == df.pages[page - 1] && hdr[..] == df.pages[page - 1][..HEADER_SIZE]
      invariant df.log == log0 + WalkReads(0, page, |df.pages|)
    {
      NextPageIterAdvances(0, page, |df.pages|);
      WalkReadsStep(log0, 0, page, |df.pages|);
      var h := ReadHeader(df, page, hdr, hs);
      if IsValidHeader(h) {
        if myUploadPage < 0 {
          myUploadPage, uploadTs := page, h.ts;
        } else if h.ts < uploadTs {
          // Remember the oldest page
          myUploadPage, uploadTs := page, h.ts;
        }
      }
      page := page + 1;
    }
    uploadPage := myUploadPage;
  }

  /**
   * Pass 2 of findCurAndUploadPage: walk the ring of pages from the upload
   * page, at most once round, and stop at the first page without a valid
   * header; -1 when there is none.
   */
  method FindFreePage(df: DataFlash, hdr: array<uint8>, uploadPage: int) returns (curPage: int, ghost steps: nat)
    requires df.Valid() && hdr.Length == HEADER_SIZE && 0 <= uploadPage < |df.pages|
    modifies df, hdr
    ensures df.Valid()
    ensures curPage == FreeFrom(Headers(df.pages), uploadPage, |df.pages|)
    ensures 0 < steps <= |df.pages| && (curPage < 0 ==> steps == |df.pages|)
    ensures df.log == old(df.log) + WalkReads(uploadPage, steps, |df.pages|)
    ensures var last := NextPageIter(uploadPage, steps - 1, |df.pages|);
      (curPage >= 0 ==> curPage == last) &&
      df.buf1 == df.pages[last]
  {
    ghost var hs, log0 := Headers(df.pages), df.log;
    var nrPages := |df.pages|;
    curPage := -1;
    var page := uploadPage;
    var nr := 0;
    while nr < nrPages
      invariant 0 <= nr <= nrPages && page == NextPageIter(uploadPage, nr, nrPages)
      invariant df.Valid()
      invariant FreeFrom(hs, page, nrPages - nr) == FreeFrom(hs, uploadPage, nrPages)
      invariant nr > 0 ==>
        var last := NextPageIter(uploadPage, nr - 1, nrPages);
        df.buf1 == df.pages[last]
      invariant df.log == log0 + WalkReads(uploadPage, nr, nrPages)
    {
      WalkReadsStep(log0, uploadPage, nr, nrPages);
      var h := ReadHeader(df, page, hdr, hs);
      if !IsValidHeader(h) {
        curPage, steps := page, nr + 1;
        return;
      }
      nr, page := nr + 1, NextPage(page, nrPages);
    }
    steps := nrPages;
  }

  /**
   * findCurAndUploadPage: the upload page from pass 1; the current page
   * from pass 2, or the upload page itself when every page holds a valid
   * header; with no valid header anywhere, a current page from the random
   * number and upload page -1.
   */
  method FindCurAndUploadPage(df: DataFlash, randomNum: uint16) returns (curPage: int, uploadPage: int)
    requires df.Valid()
    modifies df
    ensures df.Valid()
    ensures Cursors(curPage, uploadPage) == Recover(Headers(df.pages), randomNum)
    ensures RecoveryCorrect(Headers(df.pages), randomNum, Cursors(curPage, uploadPage))
  {
    var hdr := new uint8[HEADER_SIZE];
    var myUploadPage := FindOldestPage(df, hdr);
    var myCurPage := -1;
    if myUploadPage >= 0 {
      ghost var steps;
      myCurPage, steps := FindFreePage(df, hdr, myUploadPage);
      if myCurPage < 0 {
        // None of the pages is empty: use the page of the oldest upload
        myCurPage := myUploadPage;
      }
    } else {
      // No upload page found: start at a random place
      myCurPage := randomNum % |df.pages|;
      myUploadPage := -1;
    }
    curPage, uploadPage := myCurPage, myUploadPage;
    RecoverCorrect(Headers(df.pages), randomNum);
  }
}
