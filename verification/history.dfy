/**
 The `history [page]` command (node.ts:90-112): the log is shown from the most recent entry
 backwards in pages of 100, page 0 being the newest. A page is cut from the log with
 `slice(-100 * (page + 1), page === 0 ? undefined : -100 * page)`, so its bounds count back
 from the end and are clamped at the start of the log.
 */
module History {
  import opened Wrappers
  import opened JsNumber
  import opened JsArray
  import opened Game

  const PageSize: int := 100

  /** The entries shown for `page`, oldest first. */
  function Page(h: seq<Entry>, page: int): seq<Entry> {
    Slice(h, -PageSize * (page + 1), if page == 0 then None else Some(-PageSize * page))
  }

  /** Where page `k` starts and ends in a log of length `len`, counting back from the end. */
  function PageLo(len: nat, k: nat): nat {
    if len < PageSize * (k + 1) then 0 else len - PageSize * (k + 1)
  }

  function PageHi(len: nat, k: nat): nat {
    if len < PageSize * k then 0 else len - PageSize * k
  }

  /** Page `k >= 0` is the block of the log between its two back-counted bounds. */
  lemma PageBounds(h: seq<Entry>, k: nat)
    ensures PageLo(|h|, k) <= PageHi(|h|, k) <= |h|
    ensures Page(h, k) == h[PageLo(|h|, k)..PageHi(|h|, k)]
  {
  }

  /** Page 0 is the last `min(100, |h|)` entries, in log order. */
  lemma NewestPage(h: seq<Entry>)
    ensures |Page(h, 0)| == if |h| < PageSize then |h| else PageSize
    ensures Page(h, 0) == h[|h| - |Page(h, 0)|..]
  {
    PageBounds(h, 0);
  }

  /** Every page holds at most 100 entries, and a page that starts at or before the
      beginning of the log (`100 * k >= |h|`, `k > 0`) is empty and announces the end. */
  lemma PageSizeBound(h: seq<Entry>, k: nat)
    ensures |Page(h, k)| <= PageSize
    ensures k > 0 && PageSize * k >= |h| ==> Page(h, k) == []
    ensures k > 0 && PageSize * k >= |h| ==> AtEnd(|h|, k)
  {
    PageBounds(h, k);
  }

  /** Consecutive pages meet without overlap: page `k + 1` ends where page `k` begins. */
  lemma PagesAdjacent(h: seq<Entry>, k: nat)
    ensures PageHi(|h|, k + 1) == PageLo(|h|, k)
    ensures Page(h, k + 1) + Page(h, k) == h[PageLo(|h|, k + 1)..PageHi(|h|, k)]
  {
    var lo, mid, hi := PageLo(|h|, k + 1), PageLo(|h|, k), PageHi(|h|, k);
    assert PageHi(|h|, k + 1) == mid;
    assert lo <= mid && Page(h, k + 1) == h[lo..mid] by {
      PageBounds(h, k + 1);
    }
    assert mid <= hi <= |h| && Page(h, k) == h[mid..hi] by {
      PageBounds(h, k);
    }
    assert h[lo..mid] + h[mid..hi] == h[lo..hi];
  }

  /** Pages `k`, `k - 1`, ..., `0` put together, oldest first. */
  function PagesUpTo(h: seq<Entry>, k: nat): seq<Entry> {
    if k == 0 then Page(h, 0) else Page(h, k) + PagesUpTo(h, k - 1)
  }

  /** Walking pages 0, 1, ..., `k` covers the log's tail from page `k`'s start, each entry
      exactly once. */
  lemma {:induction false} PagesCoverTail(h: seq<Entry>, k: nat)
    ensures PagesUpTo(h, k) == h[PageLo(|h|, k)..]
  {
    if k == 0 {
      PageBounds(h, 0);
    } else {
      PagesCoverTail(h, k - 1);
      CoverStep(h, k);
    }
  }

  /** One more page in front extends the covered tail back to that page's start. */
  lemma CoverStep(h: seq<Entry>, k: nat)
    requires k > 0
    requires PagesUpTo(h, k - 1) == h[PageLo(|h|, k - 1)..]
    ensures PagesUpTo(h, k) == h[PageLo(|h|, k)..]
  {
    var lo, mid := PageLo(|h|, k), PageLo(|h|, k - 1);
    assert PageHi(|h|, k) == mid;
    assert lo <= mid && Page(h, k) == h[lo..mid] by {
      PageBounds(h, k);
    }
    assert h[lo..mid] + h[mid..] == h[lo..];
  }

  /** Once a page reaches back to the first entry, the pages so far partition the log. */
  lemma PagesPartitionLog(h: seq<Entry>, k: nat)
    requires PageSize * (k + 1) >= |h|
    ensures PagesUpTo(h, k) == h
  {
    PagesCoverTail(h, k);
    assert PageLo(|h|, k) == 0;
  }

  /** A negative page (`history -1`, say) counts from the START of the log instead:
      page `-j` is the `j`-th block of 100 entries from the oldest one. */
  lemma NegativePage(h: seq<Entry>, page: int)
    requires page < 0
    ensures var lo := if PageSize * (-page - 1) < |h| then PageSize * (-page - 1) else |h|;
            var hi := if PageSize * -page < |h| then PageSize * -page else |h|;
            Page(h, page) == h[lo..hi]
  {
  }

  /** `${mover}: ${value}` */
  function EntryLine(e: Entry): string {
    e.mover + ": " + IntToString(e.value) + "\r\n"
  }

  /** One line per entry, in order. */
  function EntryLines(es: seq<Entry>): seq<string> {
    seq(|es|, k requires 0 <= k < |es| => EntryLine(es[k]))
  }

  /** True when the closing line says the end was reached rather than naming the next page. */
  predicate AtEnd(len: nat, page: int) {
    (page + 1) * PageSize > len
  }

  function EndLine(len: nat, page: int): string {
    if AtEnd(len, page) then "You've reached the end!\r\n"
    else
      "that was page " + IntToString(page) + ", use history " + IntToString(page + 1)
      + " to get the next page\r\n"
  }

  /** Everything `history [page]` writes: a heading, the page's entries, a closing line. */
  function HistoryReplies(h: seq<Entry>, page: int): (r: seq<string>)
    ensures |r| == |Page(h, page)| + 2
    ensures r[0] == "History (page " + IntToString(page) + ")\r\n"
    ensures r[1..|r| - 1] == EntryLines(Page(h, page))
    ensures r[|r| - 1] == EndLine(|h|, page)
  {
    ["History (page " + IntToString(page) + ")\r\n"] + EntryLines(Page(h, page)) + [EndLine(|h|, page)]
  }

  /** Line `k + 1` of the reply is the page's `k`-th entry, as `mover: value`. */
  lemma HistoryLine(h: seq<Entry>, page: int, k: nat)
    requires k < |Page(h, page)|
    ensures HistoryReplies(h, page)[k + 1] == EntryLine(Page(h, page)[k])
  {
    var r := HistoryReplies(h, page);
    assert r[k + 1] == r[1..|r| - 1][k];
  }

  /** When the closing line says the end was reached, the next page really is empty. */
  lemma EndMeansNextPageEmpty(h: seq<Entry>, page: nat)
    requires AtEnd(|h|, page)
    ensures Page(h, page + 1) == []
  {
    PageSizeBound(h, page + 1);
  }

  /** The converse fails exactly at a multiple of 100: the closing line of `page` names
      page `page + 1` and that page is empty precisely when the log holds exactly
      `100 * (page + 1)` entries, so that `page` shows the oldest 100 of them. */
  lemma HintCanNameEmptyPage(h: seq<Entry>, page: nat)
    ensures (!AtEnd(|h|, page) && Page(h, page + 1) == []) <==> |h| == PageSize * (page + 1)
    ensures |h| == PageSize * (page + 1) ==> |Page(h, page)| == PageSize
  {
  }
}
