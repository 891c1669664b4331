/**
 * Stand-in for the data flash driver (Sodaq_dataflash) as the log store
 * uses it: a page can be selected into the chip's internal buffer 1, and
 * a byte range of that buffer copied into memory.  The driver returns
 * corrupted data for long transfers, so a copy is limited to MAX_CHUNK
 * bytes.  A ghost log records every driver operation in order.
 */
module Flash {
  import opened Layout

  /** Longest transfer out of buffer 1 that returns correct data. */
  const MAX_CHUNK: nat := 16

  /** One call into the driver. */
  datatype Op = SelectPage(page: nat) | CopyChunk(offset: nat, count: nat)

  /** A flash image: at least one page, every page DF_PAGE_SIZE bytes long. */
  ghost predicate IsFlashImage(pages: seq<seq<uint8>>)
  {
    |pages| > 0 && forall p | 0 <= p < |pages| :: |pages[p]| == DF_PAGE_SIZE
  }

  class DataFlash {
    /** Contents of the medium; the number of pages is DF_NR_PAGES. */
    const pages: seq<seq<uint8>>
    /** The chip's internal page buffer 1. */
    var buf1: seq<uint8>
    /** Every driver operation issued so far. */
    ghost var log: seq<Op>

    ghost predicate Valid()
      reads this
    {
      IsFlashImage(pages) && |buf1| == DF_PAGE_SIZE
    }

    constructor (pages: seq<seq<uint8>>)
      requires IsFlashImage(pages)
      ensures Valid() && this.pages == pages && log == []
    {
      this.pages := pages;
      buf1 := Erased(DF_PAGE_SIZE);
      log := [];
    }

    /** readPageToBuf1: load a page into buffer 1. */
    method ReadPageToBuf1(page: nat)
      requires Valid() && page < |pages|
      modifies this`buf1, this`log
      ensures Valid() && buf1 == pages[page]
      ensures log == old(log) + [SelectPage(page)]
    {
      buf1 := pages[page];
      log := log + [SelectPage(page)];
    }

    /**
     * readStrBuf1: copy count bytes of buffer 1, starting at offset, into
     * dest starting at pos; the rest of dest is left alone.
     */
    method ReadStrBuf1(offset: nat, dest: array<uint8>, pos: nat, count: nat)
      requires Valid() && count <= MAX_CHUNK
      requires offset + count <= DF_PAGE_SIZE && pos + count <= dest.Length
      modifies this`log, dest
      ensures Valid() && buf1 == old(buf1)
      ensures forall i | 0 <= i < dest.Length ::
        dest[i] == if pos <= i < pos + count then buf1[offset + i - pos] else old(dest[i])
      ensures log == old(log) + [CopyChunk(offset, count)]
    {
      forall i | pos <= i < pos + count {
        dest[i] := buf1[offset + i - pos];
      }
      log := log + [CopyChunk(offset, count)];
    }
  }
}
