/**
 Page windows of a paged API and the offset watermark that carries them from run to run. The
 source is an append-only list of records; a page request returns the records of its window
 that exist at the moment it is served.
 */
module PageWindows {
  import opened Basics

  datatype Pagination = PageNumber | OffsetLimit

  datatype Page = Page(index: int, size: int)

  /** The page settings that EstimatePages reads; `probed` is the total that the probe found, if it did. */
  datatype Request = Request(
    pagination: Pagination, initialPage: int, pageSize: int, hint: int, startOffset: nat, probed: Option<real>)

  function Ceil(x: real): int {
    -((-x).Floor)
  }

  function FirstPage(q: Request): int {
    if q.initialPage == 0 && q.pagination.PageNumber? then 1 else q.initialPage
  }

  /** n pages whose indices begin at `first` and go up by `step`. */
  function Ladder(first: int, step: int, size: int, n: nat): (pages: seq<Page>)
    ensures |pages| == n && forall i :: 0 <= i < n ==> pages[i] == Page(first + i * step, size)
  {
    seq(n, i => Page(first + i * step, size))
  }

  method FillPages(first: int, step: int, size: int, n: int) returns (pages: seq<Page>)
    requires n >= 0
    ensures pages == Ladder(first, step, size, n)
  {
    var arr := new Page[n];
    for i := 0 to n
      invariant forall k :: 0 <= k < i ==> arr[k] == Page(first + k * step, size)
    {
      arr[i] := Page(first + i * step, size);
    }
    pages := arr[..];
  }

  /** How many windows of the given size cover what lies between `start` and `total`. */
  function WindowCount(start: int, total: real, size: int): int
    requires size > 0
  {
    Ceil((total - start as real) / size as real)
  }

  lemma WindowCountBounds(start: int, total: real, size: int)
    requires size > 0
    ensures var n := WindowCount(start, total, size);
            (start + n * size) as real >= total && (start + (n - 1) * size) as real < total
  {
    var x := (total - start as real) / size as real;
    var n := Ceil(x);
    assert n as real >= x > (n - 1) as real;
    assert x * size as real == total - start as real;
    assert (n as real - x) * size as real >= 0.0;
    assert (x - (n - 1) as real) * size as real > 0.0;
    assert (n * size) as real == n as real * size as real;
    assert ((n - 1) * size) as real == (n - 1) as real * size as real;
  }

  method EstimatePages(q: Request) returns (pages: seq<Page>)
    ensures q.hint > 0 ==>
              pages == if q.pagination.OffsetLimit? then Ladder(q.startOffset, q.pageSize, q.pageSize, q.hint)
                       else Ladder(FirstPage(q), 1, q.pageSize, q.hint)
    ensures q.hint <= 0 && q.pageSize > 0 && q.probed.Some? && q.probed.value > 0.0 ==>
              pages == if q.pagination.PageNumber?
                       then Ladder(FirstPage(q), 1, q.pageSize, WindowCount(0, q.probed.value, q.pageSize))
                       else if q.startOffset as real < q.probed.value
                       then Ladder(q.startOffset, q.pageSize, q.pageSize,
                                   WindowCount(q.startOffset, q.probed.value, q.pageSize))
                       else [Page(q.startOffset, q.pageSize)]
    ensures q.hint <= 0 && (q.pageSize <= 0 || q.probed.None? || q.probed.value <= 0.0) ==>
              pages == [Page(if q.pagination.OffsetLimit? && q.startOffset > 0 then q.startOffset else FirstPage(q),
                             q.pageSize)]
    ensures q.hint <= 0 && q.pageSize > 0 && q.pagination.OffsetLimit? && q.initialPage >= 0 ==>
              forall probed: Option<nat> :: q.probed == AsReal(probed) ==>
                pages == Windows(Config(q.initialPage, q.pageSize), q.startOffset, probed)
  {
    var initialPage := q.initialPage;
    if initialPage == 0 && q.pagination.PageNumber? {
      initialPage := 1;
    }
    var startOffset := q.startOffset;
    if q.hint > 0 {
      if q.pagination.OffsetLimit? {
        pages := FillPages(startOffset, q.pageSize, q.pageSize, q.hint);
      } else {
        pages := FillPages(initialPage, 1, q.pageSize, q.hint);
      }
      return;
    }
    if q.probed.Some? {
      var total := q.probed.value;
      if total > 0.0 && q.pageSize > 0 {
        if q.pagination.OffsetLimit? && startOffset > 0 {
          if startOffset as real >= total {
            return [Page(startOffset, q.pageSize)];
          }
          NonEmpty(startOffset, total, q.pageSize);
          var remaining := total - startOffset as real;
          var numPages := Ceil(remaining / q.pageSize as real);
          pages := FillPages(startOffset, q.pageSize, q.pageSize, numPages);
          return;
        }
        NonEmpty(0, total, q.pageSize);
        var numPages := Ceil(total / q.pageSize as real);
        assert total - 0 as real == total;
        if q.pagination.OffsetLimit? {
          pages := FillPages(0, q.pageSize, q.pageSize, numPages);
        } else {
          pages := FillPages(initialPage, 1, q.pageSize, numPages);
        }
        return;
      }
    }
    var defaultPage := initialPage;
    if q.pagination.OffsetLimit? && startOffset > 0 {
      defaultPage := startOffset;
    }
    return [Page(defaultPage, q.pageSize)];
  }

  /** Page numbers count from the configured page, which is 1 unless said otherwise; offsets from the offset. */
  lemma FirstPageIs(q: Request)
    ensures FirstPage(q) == if q.pagination.PageNumber? && q.initialPage == 0 then 1 else q.initialPage
  {
  }

  lemma NonEmpty(start: int, total: real, size: int)
    requires size > 0 && start as real < total
    ensures WindowCount(start, total, size) >= 1
  {
    WindowCountBounds(start, total, size);
    NonPositive(WindowCount(start, total, size), size);
  }

  lemma NonPositive(n: int, size: int)
    requires size > 0
    ensures n <= 0 ==> n * size <= 0
  {
    if n <= 0 {
      assert (-n) * size >= 0;
      assert (-n) * size == -(n * size);
    }
  }

  // ---------------------------------------------------------------- the windows of one run

  predicate InWindow(p: Page, k: int) {
    p.index <= k < p.index + p.size
  }

  /** The settings of an offset-paged source. */
  datatype Config = Config(initialPage: nat, pageSize: int)

  function AsReal(probed: Option<nat>): Option<real> {
    match probed
    case None => None
    case Some(total) => Some(total as real)
  }

  predicate Found(probed: Option<nat>) {
    probed.Some? && probed.value > 0
  }

  /**
   The pages that one run requests from an offset, given what the probe found, if anything.
   Without a total the first run asks for the configured initial page.
   */
  function Windows(c: Config, start: nat, probed: Option<nat>): (pages: seq<Page>)
    requires c.pageSize > 0
    ensures |pages| >= 1
  {
    if Found(probed) && start < probed.value then
      NonEmpty(start, probed.value as real, c.pageSize);
      Ladder(start, c.pageSize, c.pageSize, WindowCount(start, probed.value as real, c.pageSize))
    else [Page(if Found(probed) || start > 0 then start else c.initialPage, c.pageSize)]
  }

  lemma RungBelow(start: int, total: int, size: nat, n: nat, i: nat)
    requires i < n && start + (n - 1) * size < total
    ensures start + i * size < total
  {
    if i < n - 1 {
      ProductGrows(i, n - 1, size);
    }
  }

  /** Below the total: contiguous disjoint windows from the offset, none wholly past the total, up to it at least. */
  lemma WindowsCover(c: Config, start: nat, total: nat)
    requires c.pageSize > 0 && start < total
    ensures var w := Windows(c, start, Some(total));
            && w[0].index == start
            && (forall i :: 0 <= i < |w| - 1 ==> w[i].index + w[i].size == w[i + 1].index)
            && (forall i :: 0 <= i < |w| ==> w[i].size == c.pageSize && w[i].index < total)
            && w[|w| - 1].index + c.pageSize >= total
  {
    var size := c.pageSize;
    var n := WindowCount(start, total as real, size);
    NonEmpty(start, total as real, size);
    WindowCountBounds(start, total as real, size);
    hide WindowCount;
    forall i | 0 <= i < n - 1 ensures start + i * size + size == start + (i + 1) * size {
    }
    forall i | 0 <= i < n ensures start + i * size < total {
      RungBelow(start, total, size, n, i);
    }
    assert n * size == (n - 1) * size + size;
  }

  /** Every record index from the offset up to the total lies in exactly one window. */
  lemma {:induction false} EachIndexOnce(c: Config, start: nat, total: nat, k: nat) returns (i: nat)
    requires c.pageSize > 0 && start <= k < total
    ensures var w := Windows(c, start, Some(total));
            i < |w| && InWindow(w[i], k) && forall j :: 0 <= j < |w| && InWindow(w[j], k) ==> j == i
  {
    WindowsCover(c, start, total);
    var w := Windows(c, start, Some(total));
    i := 0;
    while k >= w[i].index + c.pageSize
      invariant i < |w| && w[i].index <= k
      decreases |w| - i
    {
      i := i + 1;
    }
    forall j | 0 <= j < |w| && InWindow(w[j], k) ensures j == i {
      if j < i {
        ProductGrows(j, i, c.pageSize);
      } else if i < j {
        ProductGrows(i, j, c.pageSize);
      }
    }
  }

  // ---------------------------------------------------------------- runs over a growing source

  function Indices(from: nat, to: nat): (s: seq<nat>)
    ensures |s| == (if from <= to then to - from else 0)
    ensures forall i :: 0 <= i < |s| ==> s[i] == from + i
  {
    if from >= to then [] else seq(to - from, i requires 0 <= i => from + i)
  }

  /** What a page request returns when the source holds `have` records. */
  function Served(p: Page, have: nat): seq<nat>
    requires p.index >= 0 && p.size >= 0
  {
    Indices(p.index, Min(p.index + p.size, have))
  }

  /** One run: the total that the probe found, if any, and how many records there were as each page was served. */
  datatype ApiRun = ApiRun(probed: Option<nat>, have: seq<nat>)

  /** Pages may be served in any order, but records are only ever added. */
  ghost predicate AppendOnly(c: Config, start: nat, r: ApiRun)
    requires c.pageSize > 0
  {
    && |r.have| == |Windows(c, start, r.probed)|
    && forall i :: 0 <= i < |r.have| ==> r.have[i] >= start && (r.probed.Some? ==> r.have[i] >= r.probed.value)
  }

  function ReadPages(pages: seq<Page>, have: seq<nat>): seq<nat>
    requires |have| == |pages| && forall i :: 0 <= i < |pages| ==> pages[i].index >= 0 && pages[i].size >= 0
  {
    if pages == [] then [] else Served(pages[0], have[0]) + ReadPages(pages[1..], have[1..])
  }

  lemma IndicesJoin(a: nat, b: nat, c: nat)
    requires a <= b <= c
    ensures Indices(a, b) + Indices(b, c) == Indices(a, c)
  {
  }

  /** Adjacent windows, all of them full but for the last. */
  ghost predicate Adjacent(pages: seq<Page>, have: seq<nat>) {
    && pages != [] && |have| == |pages|
    && (forall i :: 0 <= i < |pages| ==> pages[i].index >= 0 && pages[i].size >= 0 && pages[i].index <= have[i])
    && (forall i :: 0 <= i < |pages| - 1 ==>
          pages[i].index + pages[i].size == pages[i + 1].index && pages[i].index + pages[i].size <= have[i])
  }

  function LastEnd(pages: seq<Page>, have: seq<nat>): int
    requires pages != [] && |have| == |pages|
  {
    var last := pages[|pages| - 1];
    Min(last.index + last.size, have[|have| - 1])
  }

  lemma AdjacentTail(pages: seq<Page>, have: seq<nat>)
    requires Adjacent(pages, have) && |pages| > 1
    ensures Adjacent(pages[1..], have[1..]) && LastEnd(pages[1..], have[1..]) == LastEnd(pages, have)
    ensures pages[1..][0].index == pages[0].index + pages[0].size
  {
    var ps, hs := pages[1..], have[1..];
    assert forall i :: 0 <= i < |ps| ==> ps[i] == pages[i + 1] && hs[i] == have[i + 1];
  }

  /** They read one unbroken range. */
  lemma {:induction false} ReadsUnbroken(pages: seq<Page>, have: seq<nat>)
    requires Adjacent(pages, have)
    ensures pages[0].index <= LastEnd(pages, have)
    ensures ReadPages(pages, have) == Indices(pages[0].index, LastEnd(pages, have))
    decreases |pages|
  {
    hide Indices;
    if |pages| == 1 {
      assert ReadPages(pages[1..], have[1..]) == [];
      assert ReadPages(pages, have) == Served(pages[0], have[0]) + [];
    } else {
      AdjacentTail(pages, have);
      ReadsUnbroken(pages[1..], have[1..]);
      IndicesJoin(pages[0].index, pages[0].index + pages[0].size, LastEnd(pages, have));
    }
  }

  /** The run asks for records from its offset on. */
  predicate StartsAtOffset(c: Config, start: nat, r: ApiRun) {
    Found(r.probed) || start > 0 || c.initialPage == 0
  }

  lemma WindowsAdjacent(c: Config, start: nat, r: ApiRun)
    requires c.pageSize > 0 && AppendOnly(c, start, r) && StartsAtOffset(c, start, r)
    ensures var w := Windows(c, start, r.probed);
            && Adjacent(w, r.have) && w[0].index == start
            && (r.probed.Some? && start < r.probed.value ==> w[|w| - 1].index + w[|w| - 1].size >= r.probed.value)
  {
    hide Windows, WindowCount, LastEnd;
    var w := Windows(c, start, r.probed);
    if Found(r.probed) && start < r.probed.value {
      WindowsCover(c, start, r.probed.value);
    } else {
      SingleWindow(c, start, r.probed);
    }
    forall i | 0 <= i < |w| ensures w[i].index >= 0 && w[i].size >= 0 && w[i].index <= r.have[i] {
      WindowsStart(c, start, r.probed, i);
    }
    forall i | 0 <= i < |w| - 1
      ensures w[i].index + w[i].size == w[i + 1].index && w[i].index + w[i].size <= r.have[i]
    {
      assert r.probed.Some? && start < r.probed.value;
      assert w[i + 1].index < r.probed.value <= r.have[i];
    }
  }

  lemma SingleWindow(c: Config, start: nat, probed: Option<nat>)
    requires c.pageSize > 0 && !(Found(probed) && start < probed.value)
    ensures Windows(c, start, probed)
         == [Page(if Found(probed) || start > 0 then start else c.initialPage, c.pageSize)]
  {
  }

  lemma WindowsStart(c: Config, start: nat, probed: Option<nat>, i: nat)
    requires c.pageSize > 0 && i < |Windows(c, start, probed)|
    ensures Windows(c, start, probed)[i].index >= 0 && Windows(c, start, probed)[i].size >= 0
  {
    if Found(probed) && start < probed.value {
      NonEmpty(start, probed.value as real, c.pageSize);
      assert i * c.pageSize >= 0;
    }
  }

  /** What a run reads, page after page. */
  function ReadByRun(c: Config, start: nat, r: ApiRun): seq<nat>
    requires c.pageSize > 0 && AppendOnly(c, start, r)
  {
    var w := Windows(c, start, r.probed);
    assert forall i :: 0 <= i < |w| ==> w[i].index >= 0 && w[i].size >= 0 by {
      forall i | 0 <= i < |w| ensures w[i].index >= 0 && w[i].size >= 0 {
        WindowsStart(c, start, r.probed, i);
      }
    }
    ReadPages(w, r.have)
  }

  /** The offset watermark after a run: the incoming offset plus the number of records read. */
  function NextOffset(c: Config, start: nat, r: ApiRun): nat
    requires c.pageSize > 0 && AppendOnly(c, start, r)
  {
    start + |ReadByRun(c, start, r)|
  }

  /** The records read by a run from its offset are one unbroken range, with at least all that the probe saw. */
  lemma RunReadsRange(c: Config, start: nat, r: ApiRun)
    requires c.pageSize > 0 && AppendOnly(c, start, r) && StartsAtOffset(c, start, r)
    ensures ReadByRun(c, start, r) == Indices(start, NextOffset(c, start, r))
    ensures r.probed.Some? ==> r.probed.value <= Max(NextOffset(c, start, r), start)
  {
    hide Windows, ReadPages;
    WindowsAdjacent(c, start, r);
    ReadsUnbroken(Windows(c, start, r.probed), r.have);
  }

  /** A first run without a total that begins at a positive initial page and finds records there. */
  predicate SkipsRecords(c: Config, start: nat, r: ApiRun) {
    !StartsAtOffset(c, start, r) && r.have != [] && r.have[0] > c.initialPage
  }

  /** Exactly when a run reads from its offset on. */
  lemma RunReadsRangeIff(c: Config, start: nat, r: ApiRun)
    requires c.pageSize > 0 && AppendOnly(c, start, r)
    ensures ReadByRun(c, start, r) == Indices(start, NextOffset(c, start, r)) <==> !SkipsRecords(c, start, r)
    ensures SkipsRecords(c, start, r) ==> ReadByRun(c, start, r) != [] && ReadByRun(c, start, r)[0] == c.initialPage
  {
    if StartsAtOffset(c, start, r) {
      RunReadsRange(c, start, r);
    } else {
      SingleWindow(c, start, r.probed);
      var w := Windows(c, start, r.probed);
      assert ReadPages(w, r.have) == Served(w[0], r.have[0]) + ReadPages(w[1..], r.have[1..]);
      assert ReadPages(w, r.have) == Served(w[0], r.have[0]);
    }
  }

  ghost predicate AllAppendOnly(c: Config, start: nat, runs: seq<ApiRun>)
    requires c.pageSize > 0
    decreases |runs|
  {
    runs != [] ==> AppendOnly(c, start, runs[0]) && AllAppendOnly(c, NextOffset(c, start, runs[0]), runs[1..])
  }

  /** Everything read by a sequence of runs, and the offset it ends with. */
  function ReadAll(c: Config, start: nat, runs: seq<ApiRun>): (seq<nat>, nat)
    requires c.pageSize > 0 && AllAppendOnly(c, start, runs)
    decreases |runs|
  {
    if runs == [] then ([], start)
    else
      var rest := ReadAll(c, NextOffset(c, start, runs[0]), runs[1..]);
      (ReadByRun(c, start, runs[0]) + rest.0, rest.1)
  }

  ghost predicate NoneSkips(c: Config, start: nat, runs: seq<ApiRun>)
    requires c.pageSize > 0 && AllAppendOnly(c, start, runs)
    decreases |runs|
  {
    runs != [] ==> !SkipsRecords(c, start, runs[0]) && NoneSkips(c, NextOffset(c, start, runs[0]), runs[1..])
  }

  lemma SuffixOfIndices(a: nat, b: nat, d: nat, x: seq<nat>)
    requires a <= b <= d && |x| == d - b
    ensures Indices(a, b) + x == Indices(a, d) <==> x == Indices(b, d)
  {
    if Indices(a, b) + x == Indices(a, d) {
      forall i | 0 <= i < |x| ensures x[i] == b + i {
        assert x[i] == (Indices(a, b) + x)[b - a + i];
      }
    }
  }

  /**
   Over any sequence of runs, each resuming at the offset the last one emitted, the records read
   are the indices from the first offset to the last, each exactly once and in order, if and
   only if no run skipped records by beginning at the initial page.
   */
  lemma {:induction false} RunsReadOnceIff(c: Config, start: nat, runs: seq<ApiRun>)
    requires c.pageSize > 0 && AllAppendOnly(c, start, runs)
    ensures var (got, end) := ReadAll(c, start, runs);
            end == start + |got| && (got == Indices(start, end) <==> NoneSkips(c, start, runs))
    decreases |runs|
  {
    if runs != [] {
      hide ReadByRun, SkipsRecords;
      var first, e := ReadByRun(c, start, runs[0]), NextOffset(c, start, runs[0]);
      RunReadsRangeIff(c, start, runs[0]);
      RunsReadOnceIff(c, e, runs[1..]);
      var (got, end) := ReadAll(c, e, runs[1..]);
      SuffixOfIndices(start, e, end, got);
      if SkipsRecords(c, start, runs[0]) {
        SkipShows(c, start, runs[0], got, end);
      }
    }
  }

  lemma SkipShows(c: Config, start: nat, r: ApiRun, rest: seq<nat>, end: nat)
    requires c.pageSize > 0 && AppendOnly(c, start, r) && SkipsRecords(c, start, r)
    requires end == NextOffset(c, start, r) + |rest|
    ensures ReadByRun(c, start, r) + rest != Indices(start, end)
  {
    RunReadsRangeIff(c, start, r);
    assert (ReadByRun(c, start, r) + rest)[0] == c.initialPage > start == Indices(start, end)[0];
  }

  /** In particular whenever the initial page is 0 or the first offset is positive. */
  lemma {:induction false} RunsReadOnce(c: Config, start: nat, runs: seq<ApiRun>)
    requires c.pageSize > 0 && AllAppendOnly(c, start, runs) && (c.initialPage == 0 || start > 0)
    ensures var (got, end) := ReadAll(c, start, runs); start <= end && got == Indices(start, end)
    decreases |runs|
  {
    RunsReadOnceIff(c, start, runs);
    if runs != [] {
      RunsReadOnce(c, NextOffset(c, start, runs[0]), runs[1..]);
      RunsReadOnceIff(c, NextOffset(c, start, runs[0]), runs[1..]);
    }
  }

  /** A source that was empty when probed, with initial page 1, and five records when read: record 0 is never read. */
  lemma FirstRecordSkipped()
    ensures var c, r := Config(1, 10), ApiRun(Some(0), [5]);
            && AppendOnly(c, 0, r) && SkipsRecords(c, 0, r)
            && ReadByRun(c, 0, r) == [1, 2, 3, 4] && NextOffset(c, 0, r) == 4
  {
    var c, r := Config(1, 10), ApiRun(Some(0), [5]);
    assert Windows(c, 0, r.probed) == [Page(1, 10)];
    assert ReadByRun(c, 0, r) == Served(Page(1, 10), 5) + ReadPages([], []);
  }
}
