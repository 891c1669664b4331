/**
 * On-flash layout of the SODAQ data log: the page header and record
 * structures, the header magic, the slot arithmetic of a page, the ring
 * successor of a page, and the two validity predicates.
 *
 * The header and record structures are modelled by an explicit
 * serialise/deserialise pair over bytes.  Field widths are the ones the
 * structures declare, with no padding between fields; multi-byte integers
 * are stored least-significant byte first (the byte order of the AVR and
 * ARM targets the firmware runs on).
 */
module Layout {

  type uint8 = b: int | 0 <= b < 0x100
  type uint16 = x: int | 0 <= x < 0x1_0000
  type uint32 = x: int | 0 <= x < 0x1_0000_0000

  /** Bytes in one page of the data flash (an AT45DB161D page). */
  const DF_PAGE_SIZE: nat := 528

  /** sizeof(myHeader): ts (4) + version (4) + magic (6). */
  const HEADER_SIZE: nat := 14

  /** sizeof(myRecord): ts (4) + rain (1) + nine 16-bit fields (18) + two floats (8). */
  const RECORD_SIZE: nat := 31

  /** Length of the magic field, which is also sizeof(HEADER_MAGIC). */
  const MAGIC_SIZE: nat := 6

  /** Byte offset of the magic field inside the header. */
  const MAGIC_OFFSET: nat := 8

  /** Version written into new headers. */
  const DATA_VERSION: uint32 := 2

  /** "SODAQ" with its terminating NUL, as bytes. */
  const HEADER_MAGIC: seq<uint8> := [0x53, 0x4F, 0x44, 0x41, 0x51, 0x00]

  /** Byte value of erased flash. */
  const ERASED: uint8 := 0xFF

  /** Number of record slots after the header in one page. */
  const NR_RECORDS_PER_PAGE: nat := (DF_PAGE_SIZE - HEADER_SIZE) / RECORD_SIZE

  /** Conversion of a C integer to uint32_t (reduction modulo 2^32). */
  function ToUint32(x: int): (r: uint32)
    ensures 0 <= x < 0x1_0000_0000 ==> r == x
    ensures -0x1_0000_0000 <= x < 0 ==> r == x + 0x1_0000_0000
  {
    x % 0x1_0000_0000
  }

  /** The cast (int32_t)x: the two's complement reading of the same 32 bits. */
  function AsInt32(x: uint32): (r: int)
    ensures -0x8000_0000 <= r < 0x8000_0000
    ensures ToUint32(r) == x
  {
    if x < 0x8000_0000 then x else x - 0x1_0000_0000
  }

  /** The timestamp that marks an unwritten record: -1 stored in a uint32_t. */
  const TS_SENTINEL: uint32 := ToUint32(-1)

  type Magic = m: seq<uint8> | |m| == MAGIC_SIZE witness [0, 0, 0, 0, 0, 0]

  type Payload = p: seq<uint8> | |p| == RECORD_SIZE - 4 witness seq(RECORD_SIZE - 4, _ => 0)

  /** struct myHeader: timestamp of the page's opening, layout version, magic. */
  datatype Header = Header(ts: uint32, version: uint32, magic: Magic)

  /** struct myRecord: the leading timestamp and the sensor fields, kept opaque. */
  datatype Record = Record(ts: uint32, payload: Payload)

  // ---------------------------------------------------------------------
  // Byte encoding

  /** A uint32_t read from four bytes, least significant first. */
  function DecodeU32(b: seq<uint8>): uint32
    requires |b| == 4
  {
    b[0] as int + 0x100 * (b[1] as int + 0x100 * (b[2] as int + 0x100 * b[3] as int))
  }

  /** The four bytes of a uint32_t, least significant first. */
  function EncodeU32(x: uint32): (b: seq<uint8>)
    ensures |b| == 4
    ensures DecodeU32(b) == x
  {
    var x1 := x / 0x100;
    var x2 := x1 / 0x100;
    [x % 0x100, x1 % 0x100, x2 % 0x100, x2 / 0x100]
  }

  lemma EncodeDecodeU32(b: seq<uint8>)
    requires |b| == 4
    ensures EncodeU32(DecodeU32(b)) == b
  {
    var y2: int := b[2] as int + 0x100 * b[3] as int;
    var y1: int := b[1] as int + 0x100 * y2;
    assert DecodeU32(b) == b[0] as int + 0x100 * y1;
    assert DecodeU32(b) / 0x100 == y1 && DecodeU32(b) % 0x100 == b[0];
    assert y1 / 0x100 == y2 && y1 % 0x100 == b[1];
    assert y2 / 0x100 == b[3] && y2 % 0x100 == b[2];
  }

  function EncodeHeader(h: Header): (b: seq<uint8>)
    ensures |b| == HEADER_SIZE
    ensures b[MAGIC_OFFSET..] == h.magic
  {
    EncodeU32(h.ts) + EncodeU32(h.version) + h.magic
  }

  function DecodeHeader(b: seq<uint8>): (h: Header)
    requires |b| == HEADER_SIZE
    ensures h.magic == b[MAGIC_OFFSET..]
  {
    Header(DecodeU32(b[..4]), DecodeU32(b[4..MAGIC_OFFSET]), b[MAGIC_OFFSET..])
  }

  lemma HeaderRoundTrip(h: Header)
    ensures DecodeHeader(EncodeHeader(h)) == h
  {
    var b := EncodeHeader(h);
    assert b[..4] == EncodeU32(h.ts);
    assert b[4..MAGIC_OFFSET] == EncodeU32(h.version);
  }

  lemma HeaderBytesRoundTrip(b: seq<uint8>)
    requires |b| == HEADER_SIZE
    ensures EncodeHeader(DecodeHeader(b)) == b
  {
    EncodeDecodeU32(b[..4]);
    EncodeDecodeU32(b[4..MAGIC_OFFSET]);
    assert b == b[..4] + b[4..MAGIC_OFFSET] + b[MAGIC_OFFSET..];
  }

  function EncodeRecord(r: Record): (b: seq<uint8>)
    ensures |b| == RECORD_SIZE
    ensures b[4..] == r.payload
  {
    EncodeU32(r.ts) + r.payload
  }

  function DecodeRecord(b: seq<uint8>): (r: Record)
    requires |b| == RECORD_SIZE
    ensures r.payload == b[4..]
  {
    Record(DecodeU32(b[..4]), b[4..])
  }

  lemma RecordRoundTrip(r: Record)
    ensures DecodeRecord(EncodeRecord(r)) == r
  {
    assert EncodeRecord(r)[..4] == EncodeU32(r.ts);
  }

  lemma RecordBytesRoundTrip(b: seq<uint8>)
    requires |b| == RECORD_SIZE
    ensures EncodeRecord(DecodeRecord(b)) == b
  {
    EncodeDecodeU32(b[..4]);
    assert b == b[..4] + b[4..];
  }

  // ---------------------------------------------------------------------
  // Validity predicates

  /** No NUL byte among the first i bytes of a. */
  predicate NulFreePrefix(a: seq<uint8>, i: nat)
    requires i <= |a|
  {
    forall j | 0 <= j < i :: a[j] != 0
  }

  /**
   * strncmp(a, b, n) == 0: at every position below n that the comparison
   * reaches (no NUL earlier in a), the bytes agree.
   */
  predicate StrnEqual(a: seq<uint8>, b: seq<uint8>, n: nat)
    requires n <= |a| && n <= |b|
  {
    forall i | 0 <= i < n && NulFreePrefix(a, i) :: a[i] == b[i]
  }

  lemma StrnEqualWithoutEarlyNul(a: seq<uint8>, b: seq<uint8>, n: nat)
    requires n <= |a| && n <= |b|
    requires forall i | 0 <= i < n - 1 :: b[i] != 0
    ensures StrnEqual(a, b, n) <==> a[..n] == b[..n]
  {
    if StrnEqual(a, b, n) {
      forall i | 0 <= i < n ensures a[i] == b[i] {
        var k := 0;
        while k < i
          invariant k <= i && NulFreePrefix(a, k)
        {
          assert a[k] == b[k];
          k := k + 1;
        }
      }
      assert a[..n] == b[..n];
    }
    if a[..n] == b[..n] {
      forall i | 0 <= i < n ensures a[i] == b[i] { assert a[..n][i] == b[..n][i]; }
    }
  }

  /**
   * isValidHeader: the magic field passes strncmp against HEADER_MAGIC
   * over sizeof(HEADER_MAGIC) bytes.  That is exactly byte equality with
   * "SODAQ\0"; the timestamp and version play no part.
   */
  function IsValidHeader(h: Header): (valid: bool)
    ensures valid <==> h.magic == HEADER_MAGIC
  {
    StrnEqualWithoutEarlyNul(h.magic, HEADER_MAGIC, MAGIC_SIZE);
    StrnEqual(h.magic, HEADER_MAGIC, MAGIC_SIZE)
  }

  /**
   * isValidRecord: the record's timestamp, read as int32_t, is not -1.
   * Only the all-ones timestamp is rejected.
   */
  function IsValidRecord(r: Record): (valid: bool)
    ensures valid <==> r.ts != 0xFFFF_FFFF
  {
    !(AsInt32(r.ts) == -1)
  }

  // ---------------------------------------------------------------------
  // Pages and record slots

  /**
   * getNextPage for a flash of nrPages pages: the following page, wrapping
   * to page 0 after the last one.
   */
  function NextPage(page: int, nrPages: int): (next: int)
    ensures 0 <= page < nrPages ==> 0 <= next < nrPages
  {
    if page + 1 >= nrPages then 0 else page + 1
  }

  /** On the pages of the flash, getNextPage is the successor modulo the number of pages. */
  lemma NextPageIsSuccessorMod(page: int, nrPages: int)
    requires 0 <= page < nrPages
    ensures NextPage(page, nrPages) == (page + 1) % nrPages
  {
    if page + 1 == nrPages {
      assert (page + 1) % nrPages == 0;
    }
  }

  /** Byte offset of record slot nth in a page. */
  function SlotOffset(nth: nat): nat
  {
    HEADER_SIZE + nth * RECORD_SIZE
  }

  /** The boundary test of readPageNthRecord: slot nth runs past the page end. */
  predicate CrossesPageEnd(nth: nat)
  {
    SlotOffset(nth) + RECORD_SIZE > DF_PAGE_SIZE
  }

  /**
   * For any page, header and record size, the slot count
   * (pageSize - headerSize) / recordSize fits, and one more slot would not.
   */
  lemma SlotCountExact(pageSize: nat, headerSize: nat, recordSize: nat)
    requires headerSize <= pageSize && 0 < recordSize
    ensures headerSize + (pageSize - headerSize) / recordSize * recordSize <= pageSize
    ensures headerSize + ((pageSize - headerSize) / recordSize + 1) * recordSize > pageSize
  {
    var k := (pageSize - headerSize) / recordSize;
    var m := (pageSize - headerSize) % recordSize;
    assert pageSize - headerSize == k * recordSize + m && 0 <= m < recordSize;
    assert (k + 1) * recordSize == k * recordSize + recordSize;
  }

  /** Slots 0 .. NR_RECORDS_PER_PAGE-1 fit in a page; slot NR_RECORDS_PER_PAGE does not. */
  lemma RecordsPerPageFits()
    ensures SlotOffset(NR_RECORDS_PER_PAGE) <= DF_PAGE_SIZE
    ensures CrossesPageEnd(NR_RECORDS_PER_PAGE)
  {
    SlotCountExact(DF_PAGE_SIZE, HEADER_SIZE, RECORD_SIZE);
  }

  /** The boundary test rejects exactly the slots at or past NR_RECORDS_PER_PAGE. */
  lemma CrossesPageEndIff(nth: nat)
    ensures CrossesPageEnd(nth) <==> nth >= NR_RECORDS_PER_PAGE
  {
    RecordsPerPageFits();
    if nth < NR_RECORDS_PER_PAGE {
      assert SlotOffset(nth) + RECORD_SIZE <= SlotOffset(NR_RECORDS_PER_PAGE);
    } else {
      assert SlotOffset(nth) >= SlotOffset(NR_RECORDS_PER_PAGE);
    }
  }

  /** The header decoded from the first bytes of a page. */
  function HeaderOf(page: seq<uint8>): Header
    requires |page| >= HEADER_SIZE
  {
    DecodeHeader(page[..HEADER_SIZE])
  }

  /** The headers of every page of a flash image, in page order. */
  function Headers(pages: seq<seq<uint8>>): (hs: seq<Header>)
    requires forall p | 0 <= p < |pages| :: |pages[p]| >= HEADER_SIZE
    ensures |hs| == |pages|
    ensures forall p | 0 <= p < |pages| :: hs[p] == HeaderOf(pages[p])
  {
    seq(|pages|, p requires 0 <= p < |pages| => HeaderOf(pages[p]))
  }

  /** The bytes of record slot nth of a page. */
  function SlotBytes(page: seq<uint8>, nth: nat): (b: seq<uint8>)
    requires |page| == DF_PAGE_SIZE && !CrossesPageEnd(nth)
    ensures |b| == RECORD_SIZE
  {
    page[SlotOffset(nth)..SlotOffset(nth) + RECORD_SIZE]
  }

  /** Consecutive record images. */
  function RecordsImage(recs: seq<Record>): (b: seq<uint8>)
    ensures |b| == |recs| * RECORD_SIZE
  {
    if recs == [] then [] else EncodeRecord(recs[0]) + RecordsImage(recs[1..])
  }

  /** Erased flash: every byte 0xFF. */
  function Erased(n: nat): (b: seq<uint8>)
    ensures |b| == n
  {
    seq(n, _ => ERASED)
  }

  /**
   * A page written as the firmware writes it: the header, then the first
   * |recs| record slots, the rest still erased.
   */
  function PageImage(h: Header, recs: seq<Record>): (page: seq<uint8>)
    requires |recs| <= NR_RECORDS_PER_PAGE
    ensures |page| == DF_PAGE_SIZE
  {
    RecordsPerPageFits();
    EncodeHeader(h) + RecordsImage(recs) + Erased(DF_PAGE_SIZE - SlotOffset(|recs|))
  }

  lemma {:induction false} RecordsImageSlot(recs: seq<Record>, i: nat)
    requires i < |recs|
    ensures RecordsImage(recs)[i * RECORD_SIZE..(i + 1) * RECORD_SIZE] == EncodeRecord(recs[i])
  {
    var rest := RecordsImage(recs[1..]);
    assert RecordsImage(recs) == EncodeRecord(recs[0]) + rest;
    if i > 0 {
      RecordsImageSlot(recs[1..], i - 1);
      assert RecordsImage(recs)[i * RECORD_SIZE..(i + 1) * RECORD_SIZE]
          == rest[(i - 1) * RECORD_SIZE..i * RECORD_SIZE];
    }
  }

  /** An erased record slot reads back with the sentinel timestamp. */
  lemma ErasedRecordInvalid(b: seq<uint8>)
    requires |b| == RECORD_SIZE && forall i | 0 <= i < |b| :: b[i] == ERASED
    ensures DecodeRecord(b).ts == TS_SENTINEL
    ensures !IsValidRecord(DecodeRecord(b))
  {
    assert b[..4] == [ERASED, ERASED, ERASED, ERASED];
  }

  /**
   * Reading a written page back: its header is the header written, every
   * written slot decodes to the record written, and every slot that was
   * not written (but fits in the page) decodes to an invalid record.
   */
  lemma PageImageReadBack(h: Header, recs: seq<Record>, nth: nat)
    requires |recs| <= NR_RECORDS_PER_PAGE && nth < NR_RECORDS_PER_PAGE
    ensures !CrossesPageEnd(nth)
    ensures HeaderOf(PageImage(h, recs)) == h
    ensures nth < |recs| ==> DecodeRecord(SlotBytes(PageImage(h, recs), nth)) == recs[nth]
    ensures nth >= |recs| ==> !IsValidRecord(DecodeRecord(SlotBytes(PageImage(h, recs), nth)))
  {
    CrossesPageEndIff(nth);
    var page := PageImage(h, recs);
    var hb, rb := EncodeHeader(h), RecordsImage(recs);
    var eb := Erased(DF_PAGE_SIZE - SlotOffset(|recs|));
    assert page == hb + rb + eb;
    assert page[..HEADER_SIZE] == hb;
    HeaderRoundTrip(h);
    var slot := SlotBytes(page, nth);
    if nth < |recs| {
      RecordsImageSlot(recs, nth);
      assert slot == rb[nth * RECORD_SIZE..(nth + 1) * RECORD_SIZE];
      RecordRoundTrip(recs[nth]);
    } else {
      var start := SlotOffset(nth) - SlotOffset(|recs|);
      assert slot == eb[start..start + RECORD_SIZE];
      ErasedRecordInvalid(slot);
    }
  }
}
