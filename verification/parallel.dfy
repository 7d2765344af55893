/**
 * The download of a company with more than one page of expected rows
 * (`download_big_parallel_pages`): fetch every page into its own fragment
 * `_parts/<id>/part_<i>.csv`, stop on any failed page or when no page had a
 * data row, then merge the fragments into `csv_<id>.csv` (`merge_parts`),
 * judge the merged file and remove the fragments.
 */
module Parallel {
  import opened Common
  import opened Unique
  import opened Text
  import opened Files
  import opened Pages
  import opened Outcome
  import Validator

  /** `int(math.ceil(expected_total / PAGE_LIMIT))`, with the division exact. */
  function PageCount(expectedTotal: int): (n: int)
    ensures (n - 1) * PAGE_LIMIT < expectedTotal <= n * PAGE_LIMIT
  {
    -((-expectedTotal) / PAGE_LIMIT)
  }

  /** The page count is positive exactly when some row is expected. */
  lemma PageCountPositiveIff(expectedTotal: int)
    ensures PageCount(expectedTotal) > 0 <==> expectedTotal > 0
  {
  }

  /** `[i * PAGE_LIMIT for i in range(pages)]`. */
  function Offsets(pages: nat): (offs: seq<int>)
    ensures |offs| == pages && forall i :: 0 <= i < pages ==> offs[i] == i * PAGE_LIMIT
  {
    seq(pages, i => i * PAGE_LIMIT)
  }

  /**
   * The pages requested for `expected_total` rows cover them: each row
   * index below the total lies in the window of exactly one requested
   * offset, and no requested page starts past the last expected row.
   */
  lemma PagesCoverRows(expectedTotal: int, k: int)
    requires 0 <= k < expectedTotal
    ensures PageCount(expectedTotal) >= 1
    ensures var offs := Offsets(PageCount(expectedTotal));
            && (forall i :: 0 <= i < |offs| ==> 0 <= offs[i] < expectedTotal)
            && (exists i :: 0 <= i < |offs| && offs[i] <= k < offs[i] + PAGE_LIMIT)
            && (forall i, j :: 0 <= i < |offs| && 0 <= j < |offs| ==>
                  (offs[i] <= k < offs[i] + PAGE_LIMIT && offs[j] <= k < offs[j] + PAGE_LIMIT ==> i == j))
  {
    var n := PageCount(expectedTotal);
    assert n >= 1;
    var offs := Offsets(n);
    forall i | 0 <= i < |offs| ensures 0 <= offs[i] < expectedTotal {
      assert i <= n - 1;
      assert offs[i] == i * 5000 <= (n - 1) * 5000;
    }
    var w := k / 5000;
    assert w * 5000 <= k < w * 5000 + 5000;
    assert w < n;
    assert offs[w] <= k < offs[w] + PAGE_LIMIT;
    forall i, j | 0 <= i < |offs| && 0 <= j < |offs|
      ensures offs[i] <= k < offs[i] + PAGE_LIMIT && offs[j] <= k < offs[j] + PAGE_LIMIT ==> i == j
    {
      if offs[i] <= k < offs[i] + PAGE_LIMIT && offs[j] <= k < offs[j] + PAGE_LIMIT {
        WindowUnique(i, j, k);
      }
    }
  }

  /** Two 5000-row windows holding the same row index are the same window. */
  lemma WindowUnique(i: int, j: int, k: int)
    requires i * 5000 <= k < i * 5000 + 5000
    requires j * 5000 <= k < j * 5000 + 5000
    ensures i == j
  {
  }

  /** `range(pages)`. */
  function Range(pages: nat): (r: seq<nat>)
    ensures |r| == pages && forall i :: 0 <= i < pages ==> r[i] == i
  {
    seq(pages, i => i)
  }

  /** Fetching page `p` into its fragment: offset `p * PAGE_LIMIT`, only page 0 the first page. */
  function PageFetch(fs: FileSystem, id: string, server: Requests, p: nat): Fetched {
    FetchPage(server(p * PAGE_LIMIT), p * PAGE_LIMIT, p == 0, Get(fs, PageFragment(id, p)))
  }

  /** The per-page results gathered so far and the files afterwards. */
  datatype Fetch = Fetch(results: map<nat, PageResult>, fs: FileSystem)

  /**
   * The page fetches, completed in the order `order`: each records its result
   * under its page index and applies its effect on its own fragment.
   */
  function FetchEach(f: Fetch, id: string, server: Requests, order: seq<nat>): (r: Fetch)
    ensures forall p :: p in r.results <==> p in f.results || p in order
    decreases |order|
  {
    if order == [] then f
    else
      var p := order[0];
      var got := PageFetch(f.fs, id, server, p);
      FetchEach(Fetch(f.results[p := got.result], Put(f.fs, PageFragment(id, p), got.file)), id, server, order[1..])
  }

  /** What fetching page `p` leaves at `q`: fetches touch only their own fragment. */
  function FetchedAt(fs: FileSystem, id: string, server: Requests, pages: seq<nat>, q: Path): Option<string> {
    if q.PageFragment? && q.id == id && q.page in pages then PageFetch(fs, id, server, q.page).file
    else Get(fs, q)
  }

  /** A fetch reads only its own fragment, so writing another page's fragment does not change it. */
  lemma PageFetchOwnFragment(fs: FileSystem, id: string, server: Requests, p: nat, q: nat, c: Option<string>)
    requires p != q
    ensures PageFetch(Put(fs, PageFragment(id, q), c), id, server, p) == PageFetch(fs, id, server, p)
  {
    assert Get(Put(fs, PageFragment(id, q), c), PageFragment(id, p)) == Get(fs, PageFragment(id, p));
  }

  /**
   * With no page fetched twice, each page's result is that of fetching it
   * on the files as they were before all fetches.
   */
  lemma {:induction false} FetchEachResults(f: Fetch, id: string, server: Requests, order: seq<nat>)
    requires NoDuplicates(order)
    ensures var r := FetchEach(f, id, server, order);
            && (forall p :: p in order ==> r.results[p] == PageFetch(f.fs, id, server, p).result)
            && (forall p :: p in f.results && p !in order ==> r.results[p] == f.results[p])
    decreases |order|
  {
    if order != [] {
      var p := order[0];
      var got := PageFetch(f.fs, id, server, p);
      var f' := Fetch(f.results[p := got.result], Put(f.fs, PageFragment(id, p), got.file));
      NoDuplicatesTail(order);
      FetchEachResults(f', id, server, order[1..]);
      forall p' | p' in order[1..]
        ensures PageFetch(f'.fs, id, server, p') == PageFetch(f.fs, id, server, p')
      {
        PageFetchOwnFragment(f.fs, id, server, p', p, got.file);
      }
    }
  }

  /**
   * With no page fetched twice, each page's fragment ends as fetching it on
   * the files as they were before all fetches leaves it, and nothing else changes.
   */
  lemma {:induction false} FetchEachFiles(f: Fetch, id: string, server: Requests, order: seq<nat>)
    requires NoDuplicates(order)
    ensures var r := FetchEach(f, id, server, order);
            forall q :: Get(r.fs, q) == FetchedAt(f.fs, id, server, order, q)
    decreases |order|
  {
    if order != [] {
      var p := order[0];
      var got := PageFetch(f.fs, id, server, p);
      var f' := Fetch(f.results[p := got.result], Put(f.fs, PageFragment(id, p), got.file));
      var rest := order[1..];
      NoDuplicatesTail(order);
      FetchEachFiles(f', id, server, rest);
      var r := FetchEach(f, id, server, order);
      assert r == FetchEach(f', id, server, rest);
      forall q
        ensures Get(r.fs, q) == FetchedAt(f.fs, id, server, order, q)
      {
        assert Get(r.fs, q) == FetchedAt(f'.fs, id, server, rest, q);
        if q.PageFragment? && q.id == id && q.page in rest {
          PageFetchOwnFragment(f.fs, id, server, q.page, p, got.file);
        }
      }
    }
  }

  /** Two file systems that agree at every path are the same. */
  lemma SameFiles(a: FileSystem, b: FileSystem)
    requires forall q :: Get(a, q) == Get(b, q)
    ensures a == b
  {
    assert a.Keys == b.Keys by {
      forall q ensures q in a <==> q in b {
        assert Get(a, q).Some? <==> Get(b, q).Some?;
      }
    }
    forall q | q in a ensures a[q] == b[q] {
      assert Get(a, q) == Get(b, q);
    }
  }

  /**
   * The order in which the page fetches complete does not matter: any two
   * orders of the same pages, none twice, give the same results and files.
   */
  lemma CompletionOrderIrrelevant(fs: FileSystem, id: string, server: Requests, a: seq<nat>, b: seq<nat>)
    requires NoDuplicates(a) && NoDuplicates(b)
    requires forall p :: p in a <==> p in b
    ensures FetchEach(Fetch(map[], fs), id, server, a) == FetchEach(Fetch(map[], fs), id, server, b)
  {
    var f := Fetch(map[], fs);
    ResultsIrrelevant(f, id, server, a, b);
    FetchEachFiles(f, id, server, a);
    FetchEachFiles(f, id, server, b);
    FetchedAtSamePages(fs, id, server, a, b);
    SameFiles(FetchEach(f, id, server, a).fs, FetchEach(f, id, server, b).fs);
  }

  lemma FetchedAtSamePages(fs: FileSystem, id: string, server: Requests, a: seq<nat>, b: seq<nat>)
    requires forall p :: p in a <==> p in b
    ensures forall q :: FetchedAt(fs, id, server, a, q) == FetchedAt(fs, id, server, b, q)
  {
    forall q ensures FetchedAt(fs, id, server, a, q) == FetchedAt(fs, id, server, b, q) {
      if q.PageFragment? {
        assert q.page in a <==> q.page in b;
      }
    }
  }

  lemma ResultsIrrelevant(f: Fetch, id: string, server: Requests, a: seq<nat>, b: seq<nat>)
    requires f.results == map[]
    requires NoDuplicates(a) && NoDuplicates(b)
    requires forall p :: p in a <==> p in b
    ensures FetchEach(f, id, server, a).results == FetchEach(f, id, server, b).results
  {
    var ra := FetchEach(f, id, server, a).results;
    var rb := FetchEach(f, id, server, b).results;
    assert ra.Keys == rb.Keys;
    FetchEachResults(f, id, server, a);
    FetchEachResults(f, id, server, b);
    SameResults(ra, rb);
  }

  /** Two results maps with the same pages and the same result at each page are the same. */
  lemma SameResults(ra: map<nat, PageResult>, rb: map<nat, PageResult>)
    requires ra.Keys == rb.Keys
    requires forall p :: p in ra ==> ra[p] == rb[p]
    ensures ra == rb
  {
  }

  /** The sum of the data lines of pages `0 .. n - 1`. */
  function DataTotal(results: map<nat, PageResult>, n: nat): nat {
    if n == 0 then 0
    else DataTotal(results, n - 1) + (if n - 1 in results then results[n - 1].DataLines() else 0)
  }

  /** `out.write(p.read_bytes())` for every fragment `p` of `parts` that exists and is not empty, in order. */
  function MergedText(fs: FileSystem, id: string, n: nat): string {
    if n == 0 then ""
    else
      MergedText(fs, id, n - 1) + Fragment(fs, id, n - 1)
  }

  /** What the merge copies from the fragment of page `p`: its text, or nothing when it is missing or empty. */
  function Fragment(fs: FileSystem, id: string, p: nat): string {
    var path := PageFragment(id, p);
    if path in fs && |fs[path]| > 0 then fs[path] else ""
  }

  /**
   * `count_lines_quick`: the lines of a binary file, read one at a time,
   * counting up to `maxLines`; at least one line is read before the bound is
   * checked.
   */
  method CountLinesQuick(data: string, maxLines: int) returns (n: nat)
    ensures n == Min(|SplitAfterNewlines(data)|, Max(1, maxLines))
  {
    var lines := SplitAfterNewlines(data);
    n := 0;
    var i := 0;
    while i < |lines|
      invariant 0 <= i <= |lines| && n == i
      invariant n < Max(1, maxLines)
    {
      n := n + 1;
      if n >= maxLines {
        return;
      }
      i := i + 1;
    }
  }

  /** The value `CountLinesQuick` computes. */
  function LinesUpTo(data: string, maxLines: int): nat {
    Min(|SplitAfterNewlines(data)|, Max(1, maxLines))
  }

  /** The outcome of `merge_parts`, and the files afterwards. */
  datatype Merge = Merge(ok: bool, detail: Detail, fs: FileSystem)

  /**
   * `merge_parts`: remove `csv_<id>.csv`, write into it the non-empty
   * fragments in page order, then reject an empty result (the empty file
   * stays), one with fewer than two lines, and one failing the header check
   * (both removed).
   */
  function MergeParts(fs: FileSystem, id: string, n: nat): (m: Merge)
    ensures forall q :: q != Artifact(id) ==> Get(m.fs, q) == Get(fs, q)
    ensures m.ok <==> m.detail == MergedOk
    ensures m.ok ==> m.fs == fs[Artifact(id) := MergedText(fs, id, n)]
    ensures !m.ok ==> m.detail in {MergedEmpty, NoResultsHeaderOnlyAfterMerge} || m.detail.ValidationFailed?
    ensures var text := MergedText(fs, id, n);
            && (m.detail == MergedEmpty <==> text == "")
            && (m.detail == MergedEmpty ==> m.fs == fs[Artifact(id) := ""])
    ensures var text := MergedText(fs, id, n);
            && (m.detail == NoResultsHeaderOnlyAfterMerge <==> text != "" && LinesUpTo(text, 3) < 2)
            && (m.detail == NoResultsHeaderOnlyAfterMerge ==> m.fs == fs - {Artifact(id)})
    ensures var text := MergedText(fs, id, n);
            var v := Validator.Validate(text, Validator.EXPECTED_MIN_COLS);
            && (m.detail.ValidationFailed? <==> text != "" && LinesUpTo(text, 3) >= 2 && v != Validator.Valid)
            && (m.detail.ValidationFailed? ==> m.detail == ValidationFailed(v) && m.fs == fs - {Artifact(id)})
  {
    var final := Artifact(id);
    var text := MergedText(fs, id, n);
    var written := fs[final := text];
    if text == "" then Merge(false, MergedEmpty, written)
    else if LinesUpTo(text, 3) < 2 then Merge(false, NoResultsHeaderOnlyAfterMerge, fs - {final})
    else
      var v := Validator.ValidateFile(written, final, Validator.EXPECTED_MIN_COLS);
      assert v == Validator.Validate(text, Validator.EXPECTED_MIN_COLS);
      if v != Validator.Valid then Merge(false, ValidationFailed(v), fs - {final})
      else Merge(true, MergedOk, written)
  }

  /** Best-effort removal of fragments `0 .. n - 1`. */
  function RemoveFragments(fs: FileSystem, id: string, n: nat): (r: FileSystem)
    ensures forall q :: Get(r, q) == if q.PageFragment? && q.id == id && q.page < n then None else Get(fs, q)
  {
    if n == 0 then fs else RemoveFragments(fs, id, n - 1) - {PageFragment(id, n - 1)}
  }

  /** The pages whose fetch failed. */
  function Failed(results: map<nat, PageResult>): set<nat> {
    set p | p in results && results[p].PageFailed?
  }

  /**
   * The end of `download_big_parallel_pages` once the fetches of pages
   * `0 .. n - 1` gave `f`: any failed page gives `page_download_failed`, no
   * data row on any page `no_results_all_pages_empty`, and otherwise the
   * fragments are merged and, when the merge succeeds, removed.
   */
  function Gate(f: Fetch, id: string, n: nat): (r: Run)
    ensures r.offsets == Offsets(n)
  {
    var failed := Failed(f.results);
    if failed != {} then Run(PageDownloadFailed(failed), f.fs, Offsets(n))
    else
      var total := DataTotal(f.results, n);
      if total == 0 then Run(NoResultsAllPagesEmpty, f.fs, Offsets(n))
      else
        var m := MergeParts(f.fs, id, n);
        if !m.ok then Run(m.detail, m.fs, Offsets(n))
        else Run(DownloadedBigOk(n, total), RemoveFragments(m.fs, id, n), Offsets(n))
  }

  /**
   * `download_big_parallel_pages`: the page count from the expected total,
   * the page fetches (in page order; see `CompletionOrderIrrelevant`), then
   * the gating and the merge.
   */
  function DownloadBig(fs: FileSystem, id: string, expectedTotal: int, server: Requests): Run {
    var n := PageCount(expectedTotal);
    if n <= 0 then Run(BadExpectedTotal, fs, [])
    else Gate(FetchEach(Fetch(map[], fs), id, server, Range(n)), id, n)
  }

  lemma GateFailure(f: Fetch, id: string, n: nat)
    ensures Gate(f, id, n).detail.PageDownloadFailed? <==> Failed(f.results) != {}
    ensures Gate(f, id, n).detail.PageDownloadFailed? ==>
              Gate(f, id, n).detail.failed == Failed(f.results) && Gate(f, id, n).fs == f.fs
  {
    if Failed(f.results) == {} && DataTotal(f.results, n) != 0 {
      assert !MergeParts(f.fs, id, n).detail.PageDownloadFailed?;
    }
  }

  lemma GateAllEmpty(f: Fetch, id: string, n: nat)
    ensures Gate(f, id, n).detail == NoResultsAllPagesEmpty <==> Failed(f.results) == {} && DataTotal(f.results, n) == 0
    ensures Gate(f, id, n).detail == NoResultsAllPagesEmpty ==> Gate(f, id, n).fs == f.fs
  {
    if Failed(f.results) == {} && DataTotal(f.results, n) != 0 {
      assert MergeParts(f.fs, id, n).detail != NoResultsAllPagesEmpty;
    }
  }

  lemma GateNeverMergedEmpty(f: Fetch, id: string, n: nat)
    requires DataTotal(f.results, n) > 0 ==> MergedText(f.fs, id, n) != ""
    ensures Gate(f, id, n).detail != MergedEmpty
  {
  }

  lemma GateSuccess(f: Fetch, id: string, n: nat)
    ensures var text := MergedText(f.fs, id, n);
            Gate(f, id, n).detail.DownloadedBigOk? <==>
              && Failed(f.results) == {} && DataTotal(f.results, n) > 0
              && text != "" && LinesUpTo(text, 3) >= 2
              && Validator.Validate(text, Validator.EXPECTED_MIN_COLS) == Validator.Valid
    ensures var r := Gate(f, id, n);
            r.detail.DownloadedBigOk? ==>
              && r.detail == DownloadedBigOk(n, DataTotal(f.results, n))
              && Get(r.fs, Artifact(id)) == Some(MergedText(f.fs, id, n))
              && (forall p :: 0 <= p < n ==> PageFragment(id, p) !in r.fs)
  {
    var m := MergeParts(f.fs, id, n);
    if Failed(f.results) == {} && DataTotal(f.results, n) > 0 && m.ok {
      RemovedFragmentsGone(m.fs, id, n);
    }
  }

  /** Removing the fragments leaves none of them and keeps the artifact. */
  lemma RemovedFragmentsGone(fs: FileSystem, id: string, n: nat)
    ensures var r := RemoveFragments(fs, id, n);
            && Get(r, Artifact(id)) == Get(fs, Artifact(id))
            && (forall p :: 0 <= p < n ==> PageFragment(id, p) !in r)
  {
    var r := RemoveFragments(fs, id, n);
    forall p | 0 <= p < n ensures PageFragment(id, p) !in r {
      assert Get(r, PageFragment(id, p)).None?;
    }
  }

  /** The text of a fetch's fragment, empty when the fetch leaves none. */
  function FileText(file: Option<string>): string {
    match file
    case Some(t) => t
    case None => ""
  }

  /** The fragments of pages `0 .. n - 1` as fetched from `fs`, concatenated in page order. */
  function FetchedText(fs: FileSystem, id: string, server: Requests, n: nat): string {
    if n == 0 then "" else FetchedText(fs, id, server, n - 1) + FetchedFile(fs, id, server, n - 1)
  }

  /** The text fetching page `p` on `fs` writes to its fragment. */
  function FetchedFile(fs: FileSystem, id: string, server: Requests, p: nat): string {
    FileText(PageFetch(fs, id, server, p).file)
  }

  /** The data lines of pages `0 .. n - 1` as fetched from `fs`. */
  function FetchedRows(fs: FileSystem, id: string, server: Requests, n: nat): nat {
    if n == 0 then 0 else FetchedRows(fs, id, server, n - 1) + PageFetch(fs, id, server, n - 1).result.DataLines()
  }

  /** Some page among `0 .. n - 1` fails. */
  predicate SomePageFails(fs: FileSystem, id: string, server: Requests, n: nat) {
    exists p :: 0 <= p < n && PageFetch(fs, id, server, p).result.PageFailed?
  }

  /** The fetches of pages `0 .. n - 1` in page order: each as if on the files before them all. */
  lemma RangeFetched(fs: FileSystem, id: string, server: Requests, n: nat)
    ensures var f := FetchEach(Fetch(map[], fs), id, server, Range(n));
            && (forall p :: p in f.results <==> 0 <= p < n)
            && (forall p :: 0 <= p < n ==> f.results[p] == PageFetch(fs, id, server, p).result)
            && (forall q :: Get(f.fs, q) == FetchedAt(fs, id, server, Range(n), q))
  {
    var f := Fetch(map[], fs);
    FetchEachResults(f, id, server, Range(n));
    FetchEachFiles(f, id, server, Range(n));
    forall p ensures p in Range(n) <==> 0 <= p < n {
      if 0 <= p < n {
        assert Range(n)[p] == p;
      }
    }
  }

  /** The merged text of the fetched fragments is the fetched text. */
  lemma {:induction false} MergedIsFetched(fs: FileSystem, fetched: FileSystem, id: string, server: Requests, k: nat)
    requires forall p :: 0 <= p < k ==> Fragment(fetched, id, p) == FetchedFile(fs, id, server, p)
    ensures MergedText(fetched, id, k) == FetchedText(fs, id, server, k)
  {
    if k > 0 {
      MergedIsFetched(fs, fetched, id, server, k - 1);
    }
  }

  /** The fragment of page `p` holds what fetching page `p` wrote. */
  lemma FetchedFragment(fs: FileSystem, fetched: FileSystem, id: string, server: Requests, n: nat, p: nat)
    requires p < n
    requires forall q :: Get(fetched, q) == FetchedAt(fs, id, server, Range(n), q)
    ensures Fragment(fetched, id, p) == FetchedFile(fs, id, server, p)
  {
    assert Range(n)[p] == p;
    var path := PageFragment(id, p);
    var got := PageFetch(fs, id, server, p).file;
    assert Get(fetched, path) == got;
    FragmentText(fetched, path, got);
  }

  /** What the merge copies from a fragment is its text, or nothing when it does not exist. */
  lemma FragmentText(fetched: FileSystem, p: Path, got: Option<string>)
    requires Get(fetched, p) == got
    ensures (if p in fetched && |fetched[p]| > 0 then fetched[p] else "") == FileText(got)
  {
  }

  /** The total of the gathered results is the fetched rows. */
  lemma {:induction false} TotalIsFetched(fs: FileSystem, results: map<nat, PageResult>, id: string, server: Requests, n: nat, k: nat)
    requires k <= n
    requires forall p :: 0 <= p < n ==> p in results && results[p] == PageFetch(fs, id, server, p).result
    ensures DataTotal(results, k) == FetchedRows(fs, id, server, k)
  {
    if k > 0 {
      TotalIsFetched(fs, results, id, server, n, k - 1);
      var last := results[k - 1];
      assert last == PageFetch(fs, id, server, k - 1).result;
      assert DataTotal(results, k) == DataTotal(results, k - 1) + last.DataLines();
    }
  }

  /** A page with a data row leaves a non-empty fragment, so the fetched text is not empty. */
  lemma {:induction false} RowsMakeText(fs: FileSystem, id: string, server: Requests, n: nat)
    requires FetchedRows(fs, id, server, n) > 0
    ensures FetchedText(fs, id, server, n) != ""
  {
    var got := PageFetch(fs, id, server, n - 1);
    if got.result.PageOk? {
      assert |FileText(got.file)| > 0;
    } else {
      RowsMakeText(fs, id, server, n - 1);
    }
  }

  /** The facts about the fetches that the outcome lemmas rely on. */
  lemma BigFetchFacts(fs: FileSystem, id: string, server: Requests, n: nat)
    ensures var f := FetchEach(Fetch(map[], fs), id, server, Range(n));
            && (forall p :: p in Failed(f.results) <==> 0 <= p < n && PageFetch(fs, id, server, p).result.PageFailed?)
            && DataTotal(f.results, n) == FetchedRows(fs, id, server, n)
            && MergedText(f.fs, id, n) == FetchedText(fs, id, server, n)
            && Get(f.fs, Artifact(id)) == Get(fs, Artifact(id))
  {
    var f := FetchEach(Fetch(map[], fs), id, server, Range(n));
    RangeFetched(fs, id, server, n);
    TotalIsFetched(fs, f.results, id, server, n, n);
    forall p | 0 <= p < n
      ensures Fragment(f.fs, id, p) == FetchedFile(fs, id, server, p)
    {
      FetchedFragment(fs, f.fs, id, server, n, p);
    }
    MergedIsFetched(fs, f.fs, id, server, n);
  }

  /** A count of pages that is not positive gives `bad_expected_total` and touches nothing. */
  lemma BigBadTotal(fs: FileSystem, id: string, expectedTotal: int, server: Requests)
    ensures var r := DownloadBig(fs, id, expectedTotal, server);
            r.detail == BadExpectedTotal <==> expectedTotal <= 0
    ensures var r := DownloadBig(fs, id, expectedTotal, server);
            r.detail == BadExpectedTotal ==> r.fs == fs && r.offsets == []
  {
    PageCountPositiveIff(expectedTotal);
    var n := PageCount(expectedTotal);
    if n > 0 {
      GateFailure(FetchEach(Fetch(map[], fs), id, server, Range(n)), id, n);
      GateAllEmpty(FetchEach(Fetch(map[], fs), id, server, Range(n)), id, n);
      GateSuccess(FetchEach(Fetch(map[], fs), id, server, Range(n)), id, n);
      assert DownloadBig(fs, id, expectedTotal, server).detail != BadExpectedTotal by {
        assert !Gate(FetchEach(Fetch(map[], fs), id, server, Range(n)), id, n).detail.BadExpectedTotal?;
      }
    }
  }

  /** Some page is in `Failed` exactly when some page's fetch fails. */
  lemma FailedIffSomeFails(fs: FileSystem, id: string, server: Requests, n: nat, f: Fetch)
    requires forall p :: p in Failed(f.results) <==> 0 <= p < n && PageFetch(fs, id, server, p).result.PageFailed?
    ensures Failed(f.results) != {} <==> SomePageFails(fs, id, server, n)
  {
    if SomePageFails(fs, id, server, n) {
      var p :| 0 <= p < n && PageFetch(fs, id, server, p).result.PageFailed?;
      assert p in Failed(f.results);
    }
  }

  /**
   * Any failed page gives `page_download_failed`, naming exactly the failed
   * pages, before anything is merged: `csv_<id>.csv` is untouched.
   */
  lemma BigPageFailure(fs: FileSystem, id: string, expectedTotal: int, server: Requests)
    ensures var r := DownloadBig(fs, id, expectedTotal, server);
            var n := PageCount(expectedTotal);
            r.detail.PageDownloadFailed? <==> n > 0 && SomePageFails(fs, id, server, n)
    ensures var r := DownloadBig(fs, id, expectedTotal, server);
            var n := PageCount(expectedTotal);
            r.detail.PageDownloadFailed? ==>
              && (forall p :: p in r.detail.failed <==> 0 <= p < n && PageFetch(fs, id, server, p).result.PageFailed?)
              && Get(r.fs, Artifact(id)) == Get(fs, Artifact(id))
  {
    var n := PageCount(expectedTotal);
    if n > 0 {
      var f := FetchEach(Fetch(map[], fs), id, server, Range(n));
      BigFetchFacts(fs, id, server, n);
      FailedIffSomeFails(fs, id, server, n, f);
      GateFailure(f, id, n);
    }
  }

  /** With no page failed, no data row on any page gives `no_results_all_pages_empty`, before anything is merged. */
  lemma BigAllPagesEmpty(fs: FileSystem, id: string, expectedTotal: int, server: Requests)
    ensures var r := DownloadBig(fs, id, expectedTotal, server);
            var n := PageCount(expectedTotal);
            r.detail == NoResultsAllPagesEmpty <==>
              n > 0 && !SomePageFails(fs, id, server, n) && FetchedRows(fs, id, server, n) == 0
    ensures var r := DownloadBig(fs, id, expectedTotal, server);
            r.detail == NoResultsAllPagesEmpty ==> Get(r.fs, Artifact(id)) == Get(fs, Artifact(id))
  {
    var n := PageCount(expectedTotal);
    if n > 0 {
      var f := FetchEach(Fetch(map[], fs), id, server, Range(n));
      BigFetchFacts(fs, id, server, n);
      FailedIffSomeFails(fs, id, server, n, f);
      GateAllEmpty(f, id, n);
    }
  }

  /**
   * `merged_empty` cannot happen: past the gating some page wrote a data
   * row, and its fragment is not empty.
   */
  lemma BigNeverMergedEmpty(fs: FileSystem, id: string, expectedTotal: int, server: Requests)
    ensures DownloadBig(fs, id, expectedTotal, server).detail != MergedEmpty
  {
    var n := PageCount(expectedTotal);
    if n > 0 {
      var f := FetchEach(Fetch(map[], fs), id, server, Range(n));
      BigFetchFacts(fs, id, server, n);
      if FetchedRows(fs, id, server, n) > 0 {
        RowsMakeText(fs, id, server, n);
      }
      GateNeverMergedEmpty(f, id, n);
    }
  }

  /**
   * A successful download leaves `csv_<id>.csv` holding the fragments of
   * all pages concatenated in page order, which has at least two lines and
   * passes the header check, and removes every fragment; the rows reported
   * are the data lines of all pages. It succeeds exactly when the count of
   * pages is positive, no page failed, some page had a data row, and the
   * concatenation has two lines and passes the header check.
   */
  lemma BigSuccess(fs: FileSystem, id: string, expectedTotal: int, server: Requests)
    ensures var r := DownloadBig(fs, id, expectedTotal, server);
            var n := PageCount(expectedTotal);
            var text := FetchedText(fs, id, server, if n > 0 then n else 0);
            r.detail.DownloadedBigOk? <==>
              && n > 0 && !SomePageFails(fs, id, server, n) && FetchedRows(fs, id, server, n) > 0
              && LinesUpTo(text, 3) >= 2
              && Validator.Validate(text, Validator.EXPECTED_MIN_COLS) == Validator.Valid
    ensures var r := DownloadBig(fs, id, expectedTotal, server);
            var n := PageCount(expectedTotal);
            r.detail.DownloadedBigOk? ==>
              && n > 0
              && r.detail == DownloadedBigOk(n, FetchedRows(fs, id, server, n))
              && Get(r.fs, Artifact(id)) == Some(FetchedText(fs, id, server, n))
              && (forall p :: 0 <= p < n ==> PageFragment(id, p) !in r.fs)
  {
    var n := PageCount(expectedTotal);
    if n > 0 {
      var f := FetchEach(Fetch(map[], fs), id, server, Range(n));
      BigFetchFacts(fs, id, server, n);
      FailedIffSomeFails(fs, id, server, n, f);
      if FetchedRows(fs, id, server, n) > 0 {
        RowsMakeText(fs, id, server, n);
      }
      GateSuccess(f, id, n);
    }
  }
}
