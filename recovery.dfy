/**
 * What findCurAndUploadPage computes from the page headers of the flash,
 * stated as functions over the sequence of headers (one per page, in page
 * order), with the properties of each pass proved about those functions.
 *
 * Pass 1 scans pages 0 .. N-1 for the valid header with the smallest
 * timestamp (the upload page).  Pass 2 walks the ring of pages from the
 * upload page for the first page without a valid header (the current
 * page).  With no valid header anywhere the current page is chosen from a
 * random number and there is no upload page (-1).
 */
module Recovery {
  import opened Layout

  /** The two cursors the scan produces: where to append and where to upload from. */
  datatype Cursors = Cursors(cur: int, upload: int)

  // ---------------------------------------------------------------------
  // The ring of pages

  /** Number of getNextPage steps from page `from` to page `to` in a ring of n pages. */
  function RingDist(from: int, to: int, n: int): (d: int)
    requires 0 <= from < n && 0 <= to < n
    ensures 0 <= d < n
    ensures from + d == to || from + d == to + n
  {
    if to >= from then to - from else to - from + n
  }

  /** getNextPage applied d times. */
  function NextPageIter(page: int, d: nat, n: int): (r: int)
    requires 0 <= page < n
    ensures 0 <= r < n
  {
    if d == 0 then page else NextPage(NextPageIter(page, d - 1, n), n)
  }

  lemma {:induction false} NextPageIterAdvances(page: int, d: nat, n: int)
    requires 0 <= page < n && d <= n
    ensures NextPageIter(page, d, n) == if page + d < n then page + d else page + d - n
  {
    if d > 0 {
      NextPageIterAdvances(page, d - 1, n);
    }
  }

  /**
   * Walking the ring from any page: N steps come back to the start, and
   * the first N steps visit every page exactly once (page q after
   * RingDist(page, q) steps, and no two step counts below N meet).
   */
  lemma RingWalkVisitsEachPageOnce(page: int, n: int)
    requires 0 <= page < n
    ensures NextPageIter(page, n, n) == page
    ensures forall q | 0 <= q < n :: NextPageIter(page, RingDist(page, q, n), n) == q
    ensures forall d1: nat, d2: nat | d1 < d2 < n :: NextPageIter(page, d1, n) != NextPageIter(page, d2, n)
  {
    NextPageIterAdvances(page, n, n);
    forall q | 0 <= q < n
      ensures NextPageIter(page, RingDist(page, q, n), n) == q
    {
      NextPageIterAdvances(page, RingDist(page, q, n), n);
    }
    forall d1: nat, d2: nat | d1 < d2 < n
      ensures NextPageIter(page, d1, n) != NextPageIter(page, d2, n)
    {
      NextPageIterAdvances(page, d1, n);
      NextPageIterAdvances(page, d2, n);
    }
  }

  /** One step forward shortens the distance to every other page by one. */
  lemma RingDistStep(page: int, q: int, n: int)
    requires 0 <= page < n && 0 <= q < n && q != page
    ensures RingDist(page, q, n) == RingDist(NextPage(page, n), q, n) + 1
  {
  }

  // ---------------------------------------------------------------------
  // Pass 1: the upload page

  ghost predicate NoneValidAmong(hs: seq<Header>, k: nat)
    requires k <= |hs|
  {
    forall p | 0 <= p < k :: !IsValidHeader(hs[p])
  }

  /**
   * u is the oldest page among pages 0 .. k-1: its header is valid, its
   * timestamp is no larger than that of any valid header, and strictly
   * smaller than that of every valid header on a lower page.
   */
  ghost predicate IsOldestAmong(hs: seq<Header>, k: nat, u: int)
    requires k <= |hs|
  {
    0 <= u < k && IsValidHeader(hs[u]) &&
    (forall p | 0 <= p < k && IsValidHeader(hs[p]) :: hs[u].ts <= hs[p].ts) &&
    (forall p | 0 <= p < u && IsValidHeader(hs[p]) :: hs[u].ts < hs[p].ts)
  }

  /** The upload page after pass 1 has looked at pages 0 .. k-1 (-1: none yet). */
  function Oldest(hs: seq<Header>, k: nat): (u: int)
    requires k <= |hs|
    ensures -1 <= u < k
    ensures u >= 0 ==> IsValidHeader(hs[u])
  {
    if k == 0 then -1
    else
      var u := Oldest(hs, k - 1);
      if !IsValidHeader(hs[k - 1]) then u
      else if u < 0 then k - 1
      else if hs[k - 1].ts < hs[u].ts then k - 1
      else u
  }

  lemma {:induction false} OldestCharacterized(hs: seq<Header>, k: nat)
    requires k <= |hs|
    ensures Oldest(hs, k) == -1 <==> NoneValidAmong(hs, k)
    ensures Oldest(hs, k) >= 0 ==> IsOldestAmong(hs, k, Oldest(hs, k))
  {
    if k > 0 {
      OldestCharacterized(hs, k - 1);
    }
  }

  /** Ties on the minimum timestamp leave one oldest page only: the lowest. */
  lemma OldestUnique(hs: seq<Header>, k: nat, u: int, v: int)
    requires k <= |hs| && IsOldestAmong(hs, k, u) && IsOldestAmong(hs, k, v)
    ensures u == v
  {
  }

  // ---------------------------------------------------------------------
  // Pass 2: the current page

  /**
   * The current page pass 2 finds when it stands on `page` with `left`
   * steps to go: the first page without a valid header, or -1.
   */
  function FreeFrom(hs: seq<Header>, page: int, left: nat): (r: int)
    requires 0 <= page < |hs|
    ensures -1 <= r < |hs|
    ensures r >= 0 ==> !IsValidHeader(hs[r])
    decreases left
  {
    if left == 0 then -1
    else if !IsValidHeader(hs[page]) then page
    else FreeFrom(hs, NextPage(page, |hs|), left - 1)
  }

  /**
   * cur is the first page without a valid header in ring order from page
   * `from`: every page strictly before it on that walk has a valid header.
   */
  ghost predicate IsFirstFreeAfter(hs: seq<Header>, from: int, cur: int)
  {
    0 <= from < |hs| && 0 <= cur < |hs| && !IsValidHeader(hs[cur]) &&
    forall q | 0 <= q < |hs| && RingDist(from, q, |hs|) < RingDist(from, cur, |hs|) ::
      IsValidHeader(hs[q])
  }

  lemma {:induction false} FreeFromCharacterized(hs: seq<Header>, page: int, left: nat)
    requires 0 <= page < |hs|
    ensures FreeFrom(hs, page, left) == -1 <==>
      forall q | 0 <= q < |hs| && RingDist(page, q, |hs|) < left :: IsValidHeader(hs[q])
    ensures FreeFrom(hs, page, left) >= 0 ==>
      RingDist(page, FreeFrom(hs, page, left), |hs|) < left &&
      IsFirstFreeAfter(hs, page, FreeFrom(hs, page, left))
    decreases left
  {
    var n := |hs|;
    if left > 0 && IsValidHeader(hs[page]) {
      var next := NextPage(page, n);
      FreeFromCharacterized(hs, next, left - 1);
      forall q | 0 <= q < n && q != page
        ensures RingDist(page, q, n) == RingDist(next, q, n) + 1
      {
        RingDistStep(page, q, n);
      }
    }
  }

  // ---------------------------------------------------------------------
  // Both passes and the fallback

  ghost predicate AllValid(hs: seq<Header>)
  {
    forall p | 0 <= p < |hs| :: IsValidHeader(hs[p])
  }

  /** findCurAndUploadPage as a function of the page headers and the random number. */
  function Recover(hs: seq<Header>, randomNum: uint16): (c: Cursors)
    requires |hs| > 0
    ensures 0 <= c.cur < |hs| && -1 <= c.upload < |hs|
  {
    var upload := Oldest(hs, |hs|);
    if upload >= 0 then
      var free := FreeFrom(hs, upload, |hs|);
      Cursors(if free < 0 then upload else free, upload)
    else
      Cursors(randomNum % |hs|, -1)
  }

  /**
   * What the cursors must be, independently of how they are searched for:
   * with no valid header anywhere, a random current page and no upload
   * page; otherwise the oldest valid page as upload page and, as current
   * page, the first header-less page after it, or the upload page itself
   * when every page holds a valid header.
   */
  ghost predicate RecoveryCorrect(hs: seq<Header>, randomNum: uint16, c: Cursors)
  {
    |hs| > 0 && 0 <= c.cur < |hs| &&
    (NoneValidAmong(hs, |hs|) ==> c == Cursors(randomNum % |hs|, -1)) &&
    (!NoneValidAmong(hs, |hs|) ==>
      IsOldestAmong(hs, |hs|, c.upload) &&
      (AllValid(hs) ==> c.cur == c.upload) &&
      (!AllValid(hs) ==> IsFirstFreeAfter(hs, c.upload, c.cur)))
  }

  lemma RecoverCorrect(hs: seq<Header>, randomNum: uint16)
    requires |hs| > 0
    ensures RecoveryCorrect(hs, randomNum, Recover(hs, randomNum))
    ensures Recover(hs, randomNum).upload == -1 <==> NoneValidAmong(hs, |hs|)
    ensures !AllValid(hs) && Recover(hs, randomNum).upload >= 0 ==>
      Recover(hs, randomNum).cur != Recover(hs, randomNum).upload
  {
    var n := |hs|;
    var upload := Oldest(hs, n);
    OldestCharacterized(hs, n);
    if upload >= 0 {
      FreeFromCharacterized(hs, upload, n);
      var free := FreeFrom(hs, upload, n);
      if free < 0 {
        forall q | 0 <= q < n ensures IsValidHeader(hs[q]) {
          assert RingDist(upload, q, n) < n;
        }
      }
    }
  }

  /** The cursors are determined by RecoveryCorrect: only Recover satisfies it. */
  lemma RecoveryCorrectUnique(hs: seq<Header>, randomNum: uint16, c: Cursors)
    requires RecoveryCorrect(hs, randomNum, c)
    ensures c == Recover(hs, randomNum)
  {
    var r := Recover(hs, randomNum);
    RecoverCorrect(hs, randomNum);
    var n := |hs|;
    if !NoneValidAmong(hs, n) {
      OldestUnique(hs, n, c.upload, r.upload);
      if !AllValid(hs) {
        var dc, dr := RingDist(c.upload, c.cur, n), RingDist(c.upload, r.cur, n);
        assert dc == dr;
      }
    }
  }

  // ---------------------------------------------------------------------
  // Worked scenarios on a four-page flash

  /** A page just opened for writing: a valid header with timestamp ts and no records. */
  function OpenedPage(ts: uint32): seq<uint8>
  {
    PageImage(Header(ts, DATA_VERSION, HEADER_MAGIC), [])
  }

  lemma OpenedPageHeader(ts: uint32)
    ensures HeaderOf(OpenedPage(ts)) == Header(ts, DATA_VERSION, HEADER_MAGIC)
    ensures IsValidHeader(HeaderOf(OpenedPage(ts)))
  {
    PageImageReadBack(Header(ts, DATA_VERSION, HEADER_MAGIC), [], 0);
  }

  lemma ErasedPageHeader()
    ensures !IsValidHeader(HeaderOf(Erased(DF_PAGE_SIZE)))
  {
    assert HeaderOf(Erased(DF_PAGE_SIZE)).magic[0] == ERASED;
  }

  /** Four valid pages with timestamps 40, 10, 30, 20: upload page 1, ring full so current page 1. */
  lemma ScenarioRingFull(randomNum: uint16)
    ensures Recover(Headers([OpenedPage(40), OpenedPage(10), OpenedPage(30), OpenedPage(20)]), randomNum)
         == Cursors(1, 1)
  {
    var hs := Headers([OpenedPage(40), OpenedPage(10), OpenedPage(30), OpenedPage(20)]);
    OpenedPageHeader(40);
    OpenedPageHeader(10);
    OpenedPageHeader(30);
    OpenedPageHeader(20);
    assert Oldest(hs, 1) == 0;
    assert Oldest(hs, 2) == 1;
    assert Oldest(hs, 3) == 1;
    assert Oldest(hs, 4) == 1;
    assert FreeFrom(hs, 0, 1) == -1;
    assert FreeFrom(hs, 3, 2) == -1;
    assert FreeFrom(hs, 2, 3) == -1;
    assert FreeFrom(hs, 1, 4) == -1;
  }

  /** Pages 0 and 2 valid with timestamps 100 and 50, pages 1 and 3 erased: upload 2, current 3. */
  lemma ScenarioGap(randomNum: uint16)
    ensures Recover(Headers([OpenedPage(100), Erased(DF_PAGE_SIZE), OpenedPage(50), Erased(DF_PAGE_SIZE)]), randomNum)
         == Cursors(3, 2)
  {
    var hs := Headers([OpenedPage(100), Erased(DF_PAGE_SIZE), OpenedPage(50), Erased(DF_PAGE_SIZE)]);
    OpenedPageHeader(100);
    OpenedPageHeader(50);
    ErasedPageHeader();
    assert Oldest(hs, 1) == 0;
    assert Oldest(hs, 2) == 0;
    assert Oldest(hs, 3) == 2;
    assert Oldest(hs, 4) == 2;
    assert FreeFrom(hs, 3, 3) == 3;
    assert FreeFrom(hs, 2, 4) == 3;
  }

  /** A blank flash: no upload page, current page chosen by the random number. */
  lemma ScenarioBlank(randomNum: uint16)
    ensures Recover(Headers(seq(4, _ => Erased(DF_PAGE_SIZE))), randomNum) == Cursors(randomNum % 4, -1)
  {
    var hs := Headers(seq(4, _ => Erased(DF_PAGE_SIZE)));
    ErasedPageHeader();
    assert Oldest(hs, 1) == -1;
    assert Oldest(hs, 2) == -1;
    assert Oldest(hs, 3) == -1;
    assert Oldest(hs, 4) == -1;
  }
}
