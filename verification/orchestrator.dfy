/**
 * The driver of the downloader (`main` and `parse_slice`): build the task
 * list from the totals table, apply the optional `--slice`, dispatch each
 * company to the sequential or the page-parallel download by its expected
 * total, and gather the report rows.
 */
module Orchestrator {
  import opened Common
  import opened Text
  import opened Numbers
  import opened Ordering
  import opened Files
  import opened Pages
  import opened Outcome
  import opened Sequential
  import opened Parallel

  /** A Python slice with step 1: `None` bounds are open. */
  datatype Slice = Slice(start: Option<int>, end: Option<int>)

  /** What `parse_slice` makes of the `--slice` argument; `InvalidSlice` is the `ValueError` it raises. */
  datatype SliceArg = NoSlice | SliceOf(slice: Slice) | InvalidSlice

  /** `int(text)` for an optional bound: empty text is an open bound, unparsable text an error. */
  function ParseBound(text: string): Option<Option<int>> {
    if text == "" then Some(None)
    else match ParseInt(text)
      case Some(v) => Some(Some(v))
      case None => None
  }

  /**
   * `parse_slice`: no argument or an empty one means no slice; a bare
   * number `n` means the first `n` tasks; otherwise `start:end` split at the
   * first colon, each side stripped, an empty side open, and an end of `-1`
   * open as well.
   */
  function ParseSlice(arg: Option<string>): (r: SliceArg)
    ensures r.NoSlice? <==> arg.None? || arg.value == ""
  {
    if arg.None? || arg.value == "" then NoSlice else ParseSliceText(Strip(arg.value))
  }

  /** A non-empty, stripped slice argument: a bare count, or bounds split at the first colon. */
  function ParseSliceText(s: string): (r: SliceArg)
    ensures !r.NoSlice?
  {
    var k := IndexOf(s, ':');
    if k == |s| then CountSlice(ParseInt(s))
    else RangeSlice(ParseBound(Strip(s[..k])), ParseBound(Strip(s[k + 1..])))
  }

  /** A bare count `n` stands for `0:n`. */
  function CountSlice(n: Option<int>): (r: SliceArg)
    ensures !r.NoSlice?
  {
    match n
    case Some(v) => SliceOf(Slice(Some(0), Some(v)))
    case None => InvalidSlice
  }

  /** Both bounds must parse; an end of `-1` is open. */
  function RangeSlice(start: Option<Option<int>>, end: Option<Option<int>>): (r: SliceArg)
    ensures !r.NoSlice?
  {
    if start.Some? && end.Some? then SliceOf(Slice(start.value, if end.value == Some(-1) then None else end.value))
    else InvalidSlice
  }

  /** The rendering of an integer has no colon and no whitespace at its ends. */
  lemma IntToStringShape(i: int)
    ensures var s := IntToString(i);
            && |s| > 0 && !IsSpace(s[0]) && !IsSpace(s[|s| - 1])
            && forall j :: 0 <= j < |s| ==> s[j] != ':'
  {
    var n := if i < 0 then -i else i;
    var d := NatToString(n);
    if i < 0 {
      var s := IntToString(i);
      assert s == "-" + d;
      forall j | 1 <= j < |s| ensures IsDigit(s[j]) {
        assert s[j] == d[j - 1];
      }
    }
  }

  /** Stripping the rendering of an integer leaves it as it is. */
  lemma StripIntToString(i: int)
    ensures Strip(IntToString(i)) == IntToString(i)
  {
    IntToStringShape(i);
    StripKeepsNonSpaceEnds(IntToString(i));
  }

  /** A rendered integer, stripped, is a bound holding that integer. */
  lemma ParseBoundInt(i: int)
    ensures ParseBound(Strip(IntToString(i))) == Some(Some(i))
  {
    StripIntToString(i);
    IntToStringShape(i);
    ParseIntOfIntToString(i);
  }

  /** The first colon of `l + ":" + r` when `l` has none. */
  lemma ColonAt(l: string, r: string)
    requires forall j :: 0 <= j < |l| ==> l[j] != ':'
    ensures IndexOf(l + ":" + r, ':') == |l|
    ensures (l + ":" + r)[..|l|] == l && (l + ":" + r)[|l| + 1..] == r
  {
    var s := l + ":" + r;
    forall j | 0 <= j < |l| ensures s[j] != ':' {
      assert s[j] == l[j];
    }
    assert s[|l|] == ':';
  }

  /** An argument with a colon is read as the bounds on either side of its first colon. */
  lemma ParseAtColon(s: string, l: string, r: string)
    requires s == l + ":" + r
    requires forall j :: 0 <= j < |l| ==> l[j] != ':'
    requires Strip(s) == s
    ensures ParseSlice(Some(s)) == RangeSlice(ParseBound(Strip(l)), ParseBound(Strip(r)))
  {
    ColonAt(l, r);
  }

  /** `"<n>"` is the slice of the first `n` tasks. */
  lemma ParseCount(n: int)
    ensures ParseSlice(Some(IntToString(n))) == SliceOf(Slice(Some(0), Some(n)))
  {
    var s := IntToString(n);
    IntToStringShape(n);
    StripIntToString(n);
    ParseIntOfIntToString(n);
    assert IndexOf(s, ':') == |s|;
  }

  /** `"<a>:<b>"` parses back to its bounds, an end of `-1` read as open. */
  lemma ParseRange(a: int, b: int)
    ensures ParseSlice(Some(IntToString(a) + ":" + IntToString(b)))
            == SliceOf(Slice(Some(a), if b == -1 then None else Some(b)))
  {
    var l := IntToString(a);
    var r := IntToString(b);
    var s := l + ":" + r;
    IntToStringShape(a);
    IntToStringShape(b);
    assert s[0] == l[0] && s[|s| - 1] == r[|r| - 1];
    StripKeepsNonSpaceEnds(s);
    ParseAtColon(s, l, r);
    ParseBoundInt(a);
    ParseBoundInt(b);
  }

  /** `":<b>"` leaves the start open. */
  lemma ParseOpenStart(b: int)
    ensures ParseSlice(Some(":" + IntToString(b))) == SliceOf(Slice(None, if b == -1 then None else Some(b)))
  {
    var r := IntToString(b);
    IntToStringShape(b);
    var s := ":" + r;
    assert s == "" + ":" + r;
    assert s[|s| - 1] == r[|r| - 1];
    StripKeepsNonSpaceEnds(s);
    ParseAtColon(s, "", r);
    ParseBoundInt(b);
    OpenStartBound(b);
  }

  lemma OpenStartBound(b: int)
    ensures RangeSlice(ParseBound(Strip("")), Some(Some(b))) == SliceOf(Slice(None, if b == -1 then None else Some(b)))
  {
    assert Strip("") == "";
  }

  lemma OpenEndBound(a: int)
    ensures RangeSlice(Some(Some(a)), ParseBound(Strip(""))) == SliceOf(Slice(Some(a), None))
  {
    assert Strip("") == "";
  }

  /** `"<a>:"` leaves the end open. */
  lemma ParseOpenEnd(a: int)
    ensures ParseSlice(Some(IntToString(a) + ":")) == SliceOf(Slice(Some(a), None))
  {
    var l := IntToString(a);
    IntToStringShape(a);
    var s := l + ":";
    assert s == l + ":" + "";
    assert s[0] == l[0];
    StripKeepsNonSpaceEnds(s);
    ParseAtColon(s, l, "");
    ParseBoundInt(a);
    OpenEndBound(a);
  }

  /** Where a slice bound lands in a list of `len` items: negative bounds count from the end; both are clamped. */
  function Clamp(bound: Option<int>, len: nat, default: nat): (i: nat)
    requires default <= len
    ensures i <= len
  {
    match bound
    case None => default
    case Some(b) => if b < 0 then (if len + b < 0 then 0 else len + b) else if b > len then len else b
  }

  /** `xs[start:end]`. */
  function ApplySlice<T>(xs: seq<T>, sl: Slice): (r: seq<T>)
    ensures exists lo, hi :: 0 <= lo <= hi <= |xs| && r == xs[lo..hi]
    ensures sl.start.Some? && sl.start.value >= 0 && sl.end.Some? && sl.end.value >= 0 ==>
              var lo := Min(sl.start.value, |xs|);
              r == xs[lo..Max(lo, Min(sl.end.value, |xs|))]
  {
    var lo := Clamp(sl.start, |xs|, 0);
    var hi := Clamp(sl.end, |xs|, |xs|);
    if lo < hi then xs[lo..hi] else xs[lo..lo]
  }

  /** `xs[:k] + xs[k:] == xs` for every `k`. */
  lemma SliceSplit<T>(xs: seq<T>, k: int)
    ensures ApplySlice(xs, Slice(None, Some(k))) + ApplySlice(xs, Slice(Some(k), None)) == xs
  {
    var c := Clamp(Some(k), |xs|, 0);
    assert ApplySlice(xs, Slice(None, Some(k))) == xs[..c];
    assert ApplySlice(xs, Slice(Some(k), None)) == xs[c..];
  }

  /**
   * Negative bounds count from the end: `xs[-k:]` is the last `k` items (all
   * of them when there are fewer), and `xs[:-k]` all but the last `k`.
   */
  lemma SliceFromEnd<T>(xs: seq<T>, k: int)
    requires k > 0
    ensures ApplySlice(xs, Slice(Some(-k), None)) == xs[|xs| - Min(k, |xs|)..]
    ensures ApplySlice(xs, Slice(None, Some(-k))) == xs[..|xs| - Min(k, |xs|)]
  {
  }

  /** `xs[0:n]` for `n >= 0` is the first `n` items, or all of them. */
  lemma SliceFirst<T>(xs: seq<T>, n: nat)
    ensures ApplySlice(xs, Slice(Some(0), Some(n))) == xs[..Min(n, |xs|)]
  {
  }

  /** A row of the totals table: the company id and `total_2023`, `None` where it is missing. */
  datatype Row = Row(id: string, total: Option<int>)

  /** A company to download and its expected row count. */
  datatype Task = Task(id: string, expected: int)

  /** `fillna(0)`. */
  function Filled(total: Option<int>): int {
    match total
    case Some(t) => t
    case None => 0
  }

  /** The rows with a positive total, as tasks, in table order (`temp[temp[total_col] > 0]`). */
  function Positive(rows: seq<Row>): (ts: seq<Task>)
    ensures forall i :: 0 <= i < |ts| ==> ts[i].expected > 0
    ensures |ts| <= |rows|
  {
    if rows == [] then []
    else
      var rest := Positive(rows[1..]);
      var t := Task(rows[0].id, Filled(rows[0].total));
      if t.expected > 0 then [t] + rest else rest
  }

  /** Every row with a positive total becomes a task, and every task comes from such a row. */
  lemma {:induction false} PositiveMembers(rows: seq<Row>, t: Task)
    ensures t in Positive(rows) <==> t.expected > 0 && exists i :: 0 <= i < |rows| && t == Task(rows[i].id, Filled(rows[i].total))
  {
    if rows != [] {
      PositiveMembers(rows[1..], t);
      if exists i :: 0 <= i < |rows[1..]| && t == Task(rows[1..][i].id, Filled(rows[1..][i].total)) {
        var i :| 0 <= i < |rows[1..]| && t == Task(rows[1..][i].id, Filled(rows[1..][i].total));
        assert rows[i + 1] == rows[1..][i];
      }
      if exists i :: 0 <= i < |rows| && t == Task(rows[i].id, Filled(rows[i].total)) {
        var i :| 0 <= i < |rows| && t == Task(rows[i].id, Filled(rows[i].total));
        if i > 0 {
          assert rows[1..][i - 1] == rows[i];
        }
      }
    }
  }

  function TaskId(t: Task): string {
    t.id
  }

  /** The task list: rows with a positive total, sorted by company id. */
  function BuildTasks(rows: seq<Row>): (ts: seq<Task>)
    ensures SortedBy(ts, TaskId)
    ensures multiset(ts) == multiset(Positive(rows))
    ensures forall i :: 0 <= i < |ts| ==> ts[i].expected > 0
  {
    var ts := SortBy(Positive(rows), TaskId);
    forall i | 0 <= i < |ts| ensures ts[i].expected > 0 {
      assert ts[i] in multiset(Positive(rows));
    }
    ts
  }

  /** What `main` decides before downloading anything. */
  datatype Plan =
    | MissingTotalColumn       // `Totals JSON missing required column`
    | NoTasks                  // `No tasks found`
    | BadSlice                 // `parse_slice` raises
    | NoTasksAfterSlice        // `No tasks left after slicing`
    | Jobs(tasks: seq<Task>)

  /**
   * `main` up to the downloads: the total column must exist, the task list
   * must not be empty, and only then is the slice parsed and applied.
   */
  function PlanTasks(hasTotalColumn: bool, rows: seq<Row>, slice: Option<string>): Plan {
    if !hasTotalColumn then MissingTotalColumn
    else
      var tasks := BuildTasks(rows);
      if tasks == [] then NoTasks else ChooseJobs(tasks, ParseSlice(slice))
  }

  /**
   * Applying the parsed slice to a non-empty task list: the jobs are a
   * non-empty run of consecutive tasks, and all of them when there is no
   * slice.
   */
  function ChooseJobs(tasks: seq<Task>, arg: SliceArg): (p: Plan)
    ensures p.Jobs? ==> p.tasks != [] && exists lo, hi :: 0 <= lo <= hi <= |tasks| && p.tasks == tasks[lo..hi]
    ensures arg.NoSlice? ==> p == Jobs(tasks) || tasks == []
    ensures p == BadSlice <==> arg.InvalidSlice?
    ensures p != MissingTotalColumn && p != NoTasks
  {
    match arg
    case InvalidSlice => BadSlice
    case NoSlice =>
      assert tasks == tasks[0..|tasks|];
      if tasks == [] then NoTasksAfterSlice else Jobs(tasks)
    case SliceOf(sl) =>
      var chosen := ApplySlice(tasks, sl);
      if chosen == [] then NoTasksAfterSlice else Jobs(chosen)
  }

  /**
   * The order of `main`'s early exits: a missing total column wins over
   * everything, an empty task list over a bad slice, and a bad slice is
   * reported exactly when there are tasks and the argument does not parse.
   */
  lemma PlanErrors(hasTotalColumn: bool, rows: seq<Row>, slice: Option<string>)
    ensures PlanTasks(hasTotalColumn, rows, slice) == MissingTotalColumn <==> !hasTotalColumn
    ensures PlanTasks(hasTotalColumn, rows, slice) == NoTasks <==> hasTotalColumn && Positive(rows) == []
    ensures PlanTasks(hasTotalColumn, rows, slice) == BadSlice
            <==> hasTotalColumn && Positive(rows) != [] && ParseSlice(slice).InvalidSlice?
  {
    NoTasksIffNoPositive(rows);
    if hasTotalColumn && Positive(rows) != [] {
      var p := ChooseJobs(BuildTasks(rows), ParseSlice(slice));
      assert PlanTasks(hasTotalColumn, rows, slice) == p;
    }
  }

  lemma NoTasksIffNoPositive(rows: seq<Row>)
    ensures BuildTasks(rows) == [] <==> Positive(rows) == []
  {
    var tasks := BuildTasks(rows);
    assert |tasks| == |multiset(tasks)| == |multiset(Positive(rows))| == |Positive(rows)|;
  }

  /** A contiguous piece of a sorted list is sorted. */
  lemma SortedPiece<T>(xs: seq<T>, key: T -> string, lo: nat, hi: nat)
    requires lo <= hi <= |xs| && SortedBy(xs, key)
    ensures SortedBy(xs[lo..hi], key)
  {
    forall i, j | 0 <= i < j < hi - lo ensures LexLe(key(xs[lo..hi][i]), key(xs[lo..hi][j])) {
      assert xs[lo..hi][i] == xs[lo + i] && xs[lo..hi][j] == xs[lo + j];
    }
  }

  /** A run of consecutive tasks is sorted by company id and each has a positive total from the table. */
  lemma PieceFacts(rows: seq<Row>, lo: nat, hi: nat)
    requires lo <= hi <= |BuildTasks(rows)|
    ensures SortedBy(BuildTasks(rows)[lo..hi], TaskId)
    ensures forall i :: 0 <= i < hi - lo ==> BuildTasks(rows)[lo..hi][i].expected > 0 && BuildTasks(rows)[lo..hi][i] in Positive(rows)
  {
    var tasks := BuildTasks(rows);
    SortedPiece(tasks, TaskId, lo, hi);
    forall i | 0 <= i < hi - lo ensures tasks[lo..hi][i].expected > 0 && tasks[lo..hi][i] in Positive(rows) {
      assert tasks[lo..hi][i] == tasks[lo + i];
      assert tasks[lo + i] in multiset(Positive(rows));
    }
  }

  /**
   * The jobs `main` runs: a non-empty run of consecutive tasks of the list
   * sorted by company id, each with a positive total from the table.
   */
  lemma PlannedJobs(hasTotalColumn: bool, rows: seq<Row>, slice: Option<string>)
    ensures var p := PlanTasks(hasTotalColumn, rows, slice);
            p.Jobs? ==>
              && p.tasks != []
              && SortedBy(p.tasks, TaskId)
              && (forall i :: 0 <= i < |p.tasks| ==> p.tasks[i].expected > 0 && p.tasks[i] in Positive(rows))
  {
    var tasks := BuildTasks(rows);
    if hasTotalColumn && tasks != [] {
      var q := ChooseJobs(tasks, ParseSlice(slice));
      assert PlanTasks(hasTotalColumn, rows, slice) == q;
      if q.Jobs? {
        var lo, hi :| 0 <= lo <= hi <= |tasks| && q.tasks == tasks[lo..hi];
        PieceFacts(rows, lo, hi);
      }
    }
  }

  /** A report row: company id, expected total, success flag and detail. */
  datatype ReportRow = ReportRow(id: string, expected: int, ok: bool, detail: Detail)

  /**
   * One task: at most `PAGE_LIMIT` expected rows go to the sequential
   * download, more to the page-parallel one. `network(id)` is what the
   * server answers for that company; `fuel` bounds the sequential loop.
   */
  function RunTask(fs: FileSystem, t: Task, network: string -> Requests, fuel: nat): Option<Run> {
    if t.expected <= PAGE_LIMIT then DownloadSmall(fs, t.id, network(t.id), fuel)
    else Some(DownloadBig(fs, t.id, t.expected, network(t.id)))
  }

  /** The details only the sequential download reports. */
  predicate SmallDetail(d: Detail) {
    d.RequestError? || d.HttpError? || d == ExecutorError || d == NoResultsHeaderOnly
    || d.ValidationFailed? || d.DownloadedSmallOk?
  }

  /** The details only the page-parallel download reports. */
  predicate BigDetail(d: Detail) {
    d.PageDownloadFailed? || d == NoResultsAllPagesEmpty || d == NoResultsHeaderOnlyAfterMerge
    || d.ValidationFailed? || d.DownloadedBigOk?
  }

  /** The sequential download reports only its own details. */
  lemma SmallDetails(fs: FileSystem, id: string, server: Requests, fuel: nat)
    requires DownloadSmall(fs, id, server, fuel).Some?
    ensures SmallDetail(DownloadSmall(fs, id, server, fuel).value.detail)
  {
    Loop0Facts(server, fuel);
  }

  /**
   * A task of more than `PAGE_LIMIT` rows spans at least two pages, so
   * `bad_expected_total` and `merged_empty` never occur.
   */
  lemma BigDetails(fs: FileSystem, id: string, expected: int, server: Requests)
    requires expected > PAGE_LIMIT
    ensures PageCount(expected) >= 2
    ensures BigDetail(DownloadBig(fs, id, expected, server).detail)
  {
    BigNeverMergedEmpty(fs, id, expected, server);
    var n := PageCount(expected);
    var f := FetchEach(Fetch(map[], fs), id, server, Range(n));
    GateFailure(f, id, n);
    GateAllEmpty(f, id, n);
    GateSuccess(f, id, n);
    var m := MergeParts(f.fs, id, n);
  }

  /** Each task reports details of the download its expected total selects. */
  lemma DispatchByTotal(fs: FileSystem, t: Task, network: string -> Requests, fuel: nat)
    requires RunTask(fs, t, network, fuel).Some?
    ensures t.expected <= PAGE_LIMIT ==> SmallDetail(RunTask(fs, t, network, fuel).value.detail)
    ensures t.expected > PAGE_LIMIT ==> BigDetail(RunTask(fs, t, network, fuel).value.detail)
  {
    if t.expected <= PAGE_LIMIT {
      SmallDetails(fs, t.id, network(t.id), fuel);
    } else {
      BigDetails(fs, t.id, t.expected, network(t.id));
    }
  }

  /** A download of one task from the given files: its outcome, or `None` when it ran out of fuel. */
  type Runner = (FileSystem, Task) -> Option<Run>

  /** The downloads the driver runs: `RunTask` against the server's answers. */
  function Downloads(network: string -> Requests, fuel: nat): Runner {
    (f: FileSystem, t: Task) => RunTask(f, t, network, fuel)
  }

  /**
   * Running `jobs` one after another with `run`, each from the files the
   * previous one left, collecting a report row per job; `None` when some
   * download ran out of fuel.
   */
  function RunEach(fs: FileSystem, jobs: seq<Task>, run: Runner): (r: Option<(seq<ReportRow>, FileSystem)>)
    decreases |jobs|
    ensures r.Some? ==> |r.value.0| == |jobs|
    ensures r.Some? ==> forall i :: 0 <= i < |jobs| ==>
              && r.value.0[i].id == jobs[i].id && r.value.0[i].expected == jobs[i].expected
              && r.value.0[i].ok == r.value.0[i].detail.Ok()
  {
    if jobs == [] then Some(([], fs))
    else
      match run(fs, jobs[0])
      case None => None
      case Some(done) =>
        var row := ReportRow(jobs[0].id, jobs[0].expected, done.detail.Ok(), done.detail);
        match RunEach(done.fs, jobs[1..], run)
        case None => None
        case Some(rest) => Some(([row] + rest.0, rest.1))
  }

  /** The downloads of all jobs and the report rows, in job order. */
  function RunAll(fs: FileSystem, jobs: seq<Task>, network: string -> Requests, fuel: nat): (r: Option<(seq<ReportRow>, FileSystem)>)
    ensures r.Some? ==> |r.value.0| == |jobs|
    ensures r.Some? ==> forall i :: 0 <= i < |jobs| ==>
              && r.value.0[i].id == jobs[i].id && r.value.0[i].expected == jobs[i].expected
              && r.value.0[i].ok == r.value.0[i].detail.Ok()
  {
    RunEach(fs, jobs, Downloads(network, fuel))
  }

  /**
   * The files job `i` starts from: those left by running `jobs[..i]` one
   * after another from `fs`, `None` when one of them ran out of fuel.
   */
  function FilesBefore(fs: FileSystem, jobs: seq<Task>, run: Runner, i: nat): Option<FileSystem>
    requires i <= |jobs|
  {
    if i == 0 then Some(fs)
    else
      match FilesBefore(fs, jobs, run, i - 1)
      case None => None
      case Some(prev) =>
        match run(prev, jobs[i - 1])
        case None => None
        case Some(done) => Some(done.fs)
  }

  /** Running the first job, then the others from the files it left, is running them all from the start. */
  lemma {:induction false} FilesBeforeShift(fs: FileSystem, jobs: seq<Task>, run: Runner, i: nat)
    requires 0 < |jobs| && i < |jobs|
    requires run(fs, jobs[0]).Some?
    ensures FilesBefore(fs, jobs, run, i + 1) == FilesBefore(run(fs, jobs[0]).value.fs, jobs[1..], run, i)
  {
    if i > 0 {
      FilesBeforeShift(fs, jobs, run, i - 1);
      assert jobs[1..][i - 1] == jobs[i];
    }
  }

  /** Once the first job has run out of fuel, the files before every later job are `None`. */
  lemma {:induction false} NoneStaysNone(fs: FileSystem, jobs: seq<Task>, run: Runner, i: nat)
    requires 0 < i <= |jobs|
    requires run(fs, jobs[0]).None?
    ensures FilesBefore(fs, jobs, run, i).None?
  {
    if i > 1 {
      NoneStaysNone(fs, jobs, run, i - 1);
    }
  }

  /** Row `i` of the report is the outcome of job `i` run on the files the earlier jobs left. */
  lemma {:induction false} RunEachRow(fs: FileSystem, jobs: seq<Task>, run: Runner, i: nat)
    requires i < |jobs| && RunEach(fs, jobs, run).Some?
    ensures FilesBefore(fs, jobs, run, i).Some?
    ensures run(FilesBefore(fs, jobs, run, i).value, jobs[i]).Some?
    ensures RunEach(fs, jobs, run).value.0[i].detail == run(FilesBefore(fs, jobs, run, i).value, jobs[i]).value.detail
    decreases i
  {
    var done := run(fs, jobs[0]).value;
    if i > 0 {
      var rest := RunEach(done.fs, jobs[1..], run);
      assert RunEach(fs, jobs, run).value.0[i] == rest.value.0[i - 1];
      RunEachRow(done.fs, jobs[1..], run, i - 1);
      FilesBeforeShift(fs, jobs, run, i - 1);
      assert jobs[1..][i - 1] == jobs[i];
    }
  }

  /** The whole run gives up exactly when some job ran out of fuel, and otherwise leaves the files the last job left. */
  lemma {:induction false} RunEachFiles(fs: FileSystem, jobs: seq<Task>, run: Runner)
    ensures RunEach(fs, jobs, run).None? <==> FilesBefore(fs, jobs, run, |jobs|).None?
    ensures RunEach(fs, jobs, run).Some? ==> RunEach(fs, jobs, run).value.1 == FilesBefore(fs, jobs, run, |jobs|).value
    decreases |jobs|
  {
    if jobs != [] {
      var first := run(fs, jobs[0]);
      if first.None? {
        NoneStaysNone(fs, jobs, run, |jobs|);
      } else {
        RunEachFiles(first.value.fs, jobs[1..], run);
        FilesBeforeShift(fs, jobs, run, |jobs| - 1);
      }
    }
  }

  /**
   * Each report row carries the outcome of its own job's download, run on
   * the files the earlier jobs left; the whole run gives up exactly when
   * some download ran out of fuel, and otherwise leaves the files the last
   * job left.
   */
  lemma RunAllDetails(fs: FileSystem, jobs: seq<Task>, network: string -> Requests, fuel: nat)
    ensures var run := Downloads(network, fuel);
            RunAll(fs, jobs, network, fuel).None? <==> FilesBefore(fs, jobs, run, |jobs|).None?
    ensures var run := Downloads(network, fuel);
            var r := RunAll(fs, jobs, network, fuel);
            r.Some? ==>
              && r.value.1 == FilesBefore(fs, jobs, run, |jobs|).value
              && forall i :: 0 <= i < |jobs| ==>
                   && FilesBefore(fs, jobs, run, i).Some?
                   && RunTask(FilesBefore(fs, jobs, run, i).value, jobs[i], network, fuel).Some?
                   && r.value.0[i].detail == RunTask(FilesBefore(fs, jobs, run, i).value, jobs[i], network, fuel).value.detail
  {
    var run := Downloads(network, fuel);
    RunEachFiles(fs, jobs, run);
    if RunEach(fs, jobs, run).Some? {
      forall i | 0 <= i < |jobs|
        ensures FilesBefore(fs, jobs, run, i).Some?
        ensures RunTask(FilesBefore(fs, jobs, run, i).value, jobs[i], network, fuel).Some?
        ensures RunEach(fs, jobs, run).value.0[i].detail
                == RunTask(FilesBefore(fs, jobs, run, i).value, jobs[i], network, fuel).value.detail
      {
        RunEachRow(fs, jobs, run, i);
      }
    }
  }

  /** The successes counted in the summary line. */
  function OkCount(report: seq<ReportRow>): (n: nat)
    ensures n <= |report|
  {
    if report == [] then 0 else (if report[0].ok then 1 else 0) + OkCount(report[1..])
  }

  /** The failures counted in the summary line. */
  function FailCount(report: seq<ReportRow>): nat {
    if report == [] then 0 else (if report[0].ok then 0 else 1) + FailCount(report[1..])
  }

  /** `fail_count = len(results) - ok_count` is the number of failed rows. */
  lemma {:induction false} OkAndFailCounts(report: seq<ReportRow>)
    ensures OkCount(report) + FailCount(report) == |report|
    ensures OkCount(report) == |report| <==> forall i :: 0 <= i < |report| ==> report[i].ok
  {
    if report != [] {
      OkAndFailCounts(report[1..]);
      if forall i :: 0 <= i < |report[1..]| ==> report[1..][i].ok {
        if report[0].ok {
          forall i | 0 <= i < |report| ensures report[i].ok {
            if i > 0 {
              assert report[i] == report[1..][i - 1];
            }
          }
        }
      } else {
        var i :| 0 <= i < |report[1..]| && !report[1..][i].ok;
        assert !report[i + 1].ok;
      }
    }
  }
}
