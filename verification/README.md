# Open Payments downloader, schema audit and totals collector — a Dafny model

This project models the decision logic of three scripts that gather CMS Open
Payments "General Payments" data, and proves properties of that model.

- **The 2023 downloader** (`scripts/openpayments_general_payments_download_2023.py`):
  - builds the task list from the totals table: zero totals are dropped, the rest sorted by company id, and an optional `--slice` applied;
  - dispatches each company by its expected row count:
    - at most 5000 rows: a sequential pager that requests offsets 0, 5000, … until a page has no data row;
    - more: a page-parallel download of `ceil(total / 5000)` pages into numbered fragments, merged in page order;
  - wraps every request in a manual retry loop for 403/429 and request exceptions, which lets any other exception through at once;
  - writes each streamed page line by line, suppressing the header after page 0;
  - repairs a cut-short final line with a backward block scan;
  - validates the result's header against a minimum column count with a quote-aware CSV reader.
- **The schema audit** (`scripts/audit_raw_csv_schema.py`):
  - normalises the header of a raw CSV;
  - compares the header with the expected schema as sorted set differences, giving a match flag;
  - counts sampled data rows whose width differs from the header's.
- **The totals collector** (`scripts/recordstotal.py`):
  - pages through the company-id query and de-duplicates the ids, keeping first occurrences;
  - turns a company summary payload into one `total_<year>` column per requested year;
  - wraps that in a bounded retry.

The network, the clock and the file system are replaced by values:

- **Per-call answers.** What the `k`-th `session.get` call answers is a function `Attempts = nat -> Attempt`.
- **Per-offset answers.** What the retry loop makes of the request at each offset is `Requests = int -> Call`.
- **Datastore replies.** What the datastore answers at each offset is `Query = int -> Reply`.
- **Files.** The files are a `map<Path, string>`, where an absent key means the file does not exist.
- **Decoded text.** One character stands for one decoded unit of text. The UTF-8 byte order mark is the single character U+FEFF.
- **Unbounded loops.** Both `while True` loops take a `fuel` bound, and the model answers `None` / `OutOfFuel` when it runs out.

Python's own behaviour is modelled where the scripts depend on it:

- `str.isspace`, `strip`, `lstrip(c)`;
- `splitlines` with its full set of line boundaries;
- iteration over a text stream;
- `int(text)`, with whitespace, sign and single underscores between digits;
- `str(int)`;
- string ordering and `sorted`;
- the `csv` module's reader state machine: the excel dialect, non-strict, with the 131072-character field limit.

Modules, one per file:

| module | file |
|---|---|
| `Common` | `common.dfy` |
| `Text` | `text.dfy` |
| `Numbers` | `numbers.dfy` |
| `Ordering` | `ordering.dfy` |
| `Unique` | `unique.dfy` |
| `Csv` | `csv.dfy` |
| `Files` | `files.dfy` |
| `Validator` | `validator.dfy` |
| `TrailingRow` | `repair.dfy` |
| `Backoff` | `backoff.dfy` |
| `Pages` | `pages.dfy` |
| `Outcome` | `outcome.dfy` |
| `Sequential` | `sequential.dfy` |
| `Parallel` | `parallel.dfy` |
| `Orchestrator` | `orchestrator.dfy` |
| `Audit` | `audit.dfy` |
| `Totals` | `totals.dfy` |

Failure paths of the downloader that the model keeps as the code has them:

- **A broken stream in the sequential pager** (an exception from `iter_lines`) is not caught inside `download_small_sequential`.
  - It reaches `main` and is reported as `executor_error`.
  - The partially written `.csv.part` file stays on disk, unlike request and HTTP failures, which delete it.
- **A page fetch that fails while writing** (`write_error`) leaves the partly written fragment in place.
- **`merged_empty`** does not delete the empty merged file.
- **Retry exhaustion.** When the retry loop runs out, it raises the last request exception. When every call was throttled, it raises a `RuntimeError`. It does not report a last status.
- **Other exceptions.** The retry loop catches only `requests.exceptions.RequestException`. Any other exception from `session.get` leaves the loop on that call and is reported by the caller as `request_error`.

## Model

| member | source | states |
|---|---|---|
| Text.StripStart | scripts/audit_raw_csv_schema.py:139 | `lstrip()` removes exactly a leading run of whitespace: the result is a suffix, what was dropped is all whitespace, and the result does not start with whitespace |
| Text.StripEnd | scripts/audit_raw_csv_schema.py:139 | `rstrip()` removes exactly a trailing run of whitespace: the result is a prefix, what was dropped is all whitespace, and the result does not end with whitespace |
| Text.StripEmptyIffBlank | scripts/openpayments_general_payments_download_2023.py:209 | `if line.strip():` fails exactly on lines made only of whitespace |
| Text.StripLeading | scripts/audit_raw_csv_schema.py:141 | `lstrip("﻿")` drops exactly the leading run of that one character |
| Text.LineEnd | scripts/openpayments_general_payments_download_2023.py:208 | the first line boundary of a text: no boundary before it, and a boundary at it unless the text has none |
| Text.FirstNonBlankFrom | scripts/openpayments_general_payments_download_2023.py:208-211 | the loop's break finds the first non-blank line, every line before it is blank, and `None` means all lines are blank |
| Text.SomeLineNonBlankIff | scripts/openpayments_general_payments_download_2023.py:208-211 | some line of `splitlines()` is non-blank exactly when the text has a non-whitespace character, because every line boundary is whitespace |
| Text.TerminatedEndsWithNewline | scripts/openpayments_general_payments_download_2023.py:338-342 | text made of lines each written as `line + "\n"` is empty or ends in a newline |
| Text.IndexOf | scripts/openpayments_general_payments_download_2023.py:157 | the first colon at which `split(":", 1)` cuts: no colon before it, and a colon at it unless there is none |
| Numbers.ParseIntOfIntToString | scripts/recordstotal.py:170 | `int(str(i)) == i` for every integer, negative ones included |
| Numbers.IntToStringInjective | scripts/recordstotal.py:151 | different integers render differently |
| Numbers.NatToStringDigits | scripts/recordstotal.py:170 | `str(n)` of a natural number is well-formed digits with value `n` and no surrounding whitespace |
| Ordering.LexLeTotal | scripts/audit_raw_csv_schema.py:189-190 | any two Python strings are comparable |
| Ordering.LexLeTransitive | scripts/audit_raw_csv_schema.py:189-190 | string order is transitive |
| Ordering.LexLeAntisymmetric | scripts/audit_raw_csv_schema.py:189-190 | two strings each at most the other are equal |
| Ordering.SortBy | scripts/openpayments_general_payments_download_2023.py:624 | the sort's result is ordered by its key and is a permutation of its input |
| Unique.Distinct | scripts/recordstotal.py:129-135 | the seen-set loop's result has no duplicates and has exactly the members of its input |
| Unique.DistinctOrder | scripts/recordstotal.py:129-135 | the de-duplicated ids keep the order of their first occurrences |
| Unique.DistinctOfUnique | scripts/recordstotal.py:129-135 | a list without duplicates is its own de-duplication |
| Unique.NoDuplicatesPermutation | scripts/openpayments_general_payments_download_2023.py:624 | reordering a list without duplicates leaves it without duplicates |
| Csv.ReadFrom | scripts/audit_raw_csv_schema.py:166-173 | a record read from line `i` ends at a later line, or at the same line only when input ends inside a record |
| Csv.ReadRecord | scripts/audit_raw_csv_schema.py:167 | each `next(reader)` that yields a record consumes at least one line |
| Csv.PlainRoundTrip | scripts/openpayments_general_payments_download_2023.py:220 | a line of unquoted fields joined by commas reads back as exactly those fields |
| Csv.QuotedRoundTrip | scripts/openpayments_general_payments_download_2023.py:220 | any fields, including ones with commas, quotes and line breaks, survive quoting, joining with commas and reading back: the count is quote-aware |
| Validator.CheckHeader | scripts/openpayments_general_payments_download_2023.py:220-223 | a header line never gives `empty_or_binary_file`; when the reader yields a record the header passes exactly when it has at least the minimum number of fields, and `too_few_columns(n<min)` carries that field count and the minimum; a header the reader rejects gives `validation_error` |
| Validator.HeaderLineNoneIff | scripts/openpayments_general_payments_download_2023.py:205-215 | no decoding yields a header line exactly when every decoding is whitespace only |
| Validator.EmptyIffSampleAllSpace | scripts/openpayments_general_payments_download_2023.py:201-218 | `empty_or_binary_file` is reported exactly when the first `MAX_VALIDATION_BYTES` hold nothing but whitespace |
| Validator.HeaderLineOfFile | scripts/openpayments_general_payments_download_2023.py:203-213 | for a file starting with a byte order mark, a non-blank line and a newline, that line is the header found |
| Validator.PlainColumnBoundary | scripts/openpayments_general_payments_download_2023.py:203-223 | a file whose header is `n` bare fields (no commas, quotes or line breaks) joined by commas fails with `too_few_columns(n<min)` when `n < min` and passes when `n >= min` |
| Validator.ColumnBoundary | scripts/openpayments_general_payments_download_2023.py:220-223 | a header of `n` quoted fields fails with `too_few_columns(n<min)` when `n < min` and passes when `n >= min`, whatever commas or quotes the fields hold |
| TrailingRow.LastIndexOf | scripts/openpayments_general_payments_download_2023.py:188 | `rfind` returns the index of the last occurrence, with no occurrence after it, or -1 when there is none |
| TrailingRow.Repair | scripts/openpayments_general_payments_download_2023.py:171-196 | the repaired contents are the longest prefix that is empty or ends in a newline: a prefix, newline-terminated or empty, and keeping every newline of the input |
| TrailingRow.RepairKeepsTerminated | scripts/openpayments_general_payments_download_2023.py:173-178 | empty or newline-terminated contents are left unchanged |
| TrailingRow.RepairIdempotent | scripts/openpayments_general_payments_download_2023.py:171-196 | repairing twice is repairing once |
| TrailingRow.TruncateTrailingPartialRow | scripts/openpayments_general_payments_download_2023.py:171-196 | the backward block scan truncates to the length of `Repair(data)`, for every block size |
| Backoff.Loop | scripts/openpayments_general_payments_download_2023.py:264-287 | from any attempt on, the loop returns the first call that answers with a status other than 403/429, and raises at once an exception that is not a `RequestException`; after the fifth rejected call it raises the latest request exception, or the exhaustion error when no call raised |
| Backoff.RequestWithManualBackoff | scripts/openpayments_general_payments_download_2023.py:253-287 | the loop makes between 1 and 5 calls and never returns a 403/429 response; every earlier call was retried; it lets an exception other than a `RequestException` escape exactly when its last call raised one; otherwise it raises exactly when all five calls are rejected, with the latest request exception or the exhaustion error |
| Backoff.EscapeEndsLoop | scripts/openpayments_general_payments_download_2023.py:264-272 | a call raising an exception other than a `RequestException` ends the loop with that exception exactly when every earlier call was retried, whatever later calls would do |
| Backoff.LastThrownIsLatest | scripts/openpayments_general_payments_download_2023.py:262-268 | the remembered exception is that of a call that raised, with none raising after it, and is absent only when no call raised |
| Backoff.OnlyFirstAttemptsMatter | scripts/openpayments_general_payments_download_2023.py:264 | no call after the fifth affects the result |
| Pages.NonEmpty | scripts/openpayments_general_payments_download_2023.py:331-333 | the lines the writer keeps are all non-empty |
| Pages.WriteFromSpec | scripts/openpayments_general_payments_download_2023.py:326-343 | blank lines are skipped; the first non-empty line is written (and `header_lines` is 1) only on the first page; every later non-empty line is written with `\n` and counted |
| Pages.EncodeUtf8Sig | scripts/openpayments_general_payments_download_2023.py:325-330 | reading back with `utf-8-sig` gives exactly the text written; the file starts with a byte order mark, and is empty exactly when nothing was written |
| Pages.FetchPage | scripts/openpayments_general_payments_download_2023.py:305-357 | a raised request or a non-200 status fails and leaves the fragment as it was; a served page fails exactly when its stream breaks, is `ok` exactly with at least two non-empty lines (data = those lines minus the header), and an empty page removes the fragment |
| Pages.FetchPageContents | scripts/openpayments_general_payments_download_2023.py:325-345 | a page that is `ok`, or whose stream broke, leaves a fragment holding its non-empty lines each followed by `\n`, the first one only on page 0 and then behind a byte order mark |
| Pages.WrittenPageIsTerminated | scripts/openpayments_general_payments_download_2023.py:338-345 | a completely streamed page ends in a newline, so the trailing-row repair leaves it alone |
| Sequential.PagerStep | scripts/openpayments_general_payments_download_2023.py:386-431 | one loop iteration: a page served whole adds its data rows, sets the header flag only at offset 0, and leaves the partial file truncated (offset 0) or appended and then repaired; a request or HTTP failure removes the partial file; a broken stream keeps what was written |
| Sequential.ContinuesIffDataRow | scripts/openpayments_general_payments_download_2023.py:438-442 | the loop goes on after a page exactly when that page wrote a data row |
| Sequential.PagerOffsets | scripts/openpayments_general_payments_download_2023.py:380-442 | the loop requests consecutive offsets 5000 apart |
| Sequential.PagerContinues | scripts/openpayments_general_payments_download_2023.py:438-443 | every page but the last lets the loop go on and the last stops it: a short page never stops it |
| Sequential.PagerStopped | scripts/openpayments_general_payments_download_2023.py:412-442 | on a normal stop the row total is the data rows of every page requested, the header flag is set exactly when page 0 had a header, and the partial file holds the pages' text in offset order |
| Sequential.PagerAborted | scripts/openpayments_general_payments_download_2023.py:389-431 | when a page ends the loop, the detail is that page's: request and HTTP failures remove the partial file, and a broken stream leaves the text of every page so far |
| Sequential.Judge | scripts/openpayments_general_payments_download_2023.py:446-465 | after the loop only `csv_<id>.csv` and its partial file may change; a failure never touches `csv_<id>.csv`; the partial file is gone except after a broken stream |
| Sequential.JudgeHeaderOnlyIff | scripts/openpayments_general_payments_download_2023.py:446-452 | `no_results_header_only` is reported exactly for a normal stop without a header or without data rows |
| Sequential.JudgeStopped | scripts/openpayments_general_payments_download_2023.py:446-465 | after a normal stop the download succeeds exactly when a header and rows were written and the header check passes, and then `csv_<id>.csv` holds the partial file's text and the reported rows are the total |
| Sequential.JudgeAborted | scripts/openpayments_general_payments_download_2023.py:396-410 | a failed page's detail is reported, and the partial file is written only for a broken stream |
| Sequential.SmallOffsets | scripts/openpayments_general_payments_download_2023.py:380-444 | the download requests offsets 0, 5000, 10000, … and stops at the first page not delivered whole with a data row |
| Sequential.SmallFrame | scripts/openpayments_general_payments_download_2023.py:363-465 | only `csv_<id>.csv` and `csv_<id>.csv.part` can change |
| Sequential.HeaderOnlyIffFirstPageEmpty | scripts/openpayments_general_payments_download_2023.py:422-452 | `no_results_header_only` exactly when page 0 is delivered whole without a data row: the header flag never decides on its own |
| Sequential.SmallSuccess | scripts/openpayments_general_payments_download_2023.py:446-465 | success exactly when the last page was delivered whole, some data row was written and the pages' text passes the header check; then `csv_<id>.csv` holds every page's text in offset order, the partial file is gone, and the rows reported are all data rows |
| Sequential.SmallValidationFailure | scripts/openpayments_general_payments_download_2023.py:454-461 | `validation_failed` is reported exactly when the last page came whole, some data row was written and the pages' text fails the header check; it carries that check's reason and deletes the partial file, leaving every other file as it was |
| Sequential.SmallFailure | scripts/openpayments_general_payments_download_2023.py:389-410 | a request, HTTP or stream failure reports the last page requested; the first two remove the partial file; a broken stream leaves in it the text of every page; no failure touches `csv_<id>.csv` |
| Parallel.PageCount | scripts/openpayments_general_payments_download_2023.py:514 | the page count is the exact ceiling of `expected_total / 5000` |
| Parallel.PageCountPositiveIff | scripts/openpayments_general_payments_download_2023.py:514-516 | the page count is positive exactly when some row is expected |
| Parallel.PagesCoverRows | scripts/openpayments_general_payments_download_2023.py:514-523 | for a positive expected total, every requested offset is below the total and every row index below the total falls in the 5000-row window of exactly one requested offset |
| Parallel.FetchEachResults | scripts/openpayments_general_payments_download_2023.py:530-549 | with no page fetched twice, each page's result is that of fetching it on the files as they were before all fetches |
| Parallel.FetchEachFiles | scripts/openpayments_general_payments_download_2023.py:530-549 | with no page fetched twice, each fetch changes only its own fragment |
| Parallel.CompletionOrderIrrelevant | scripts/openpayments_general_payments_download_2023.py:544-549 | any two completion orders of the same pages give the same results map and the same files |
| Parallel.CountLinesQuick | scripts/openpayments_general_payments_download_2023.py:228-238 | the count is the number of lines, capped at `max(1, max_lines)` because the cap is checked after each line |
| Parallel.MergeParts | scripts/openpayments_general_payments_download_2023.py:471-500 | only `csv_<id>.csv` changes, and it is written with the non-empty fragments concatenated in page order; an empty concatenation gives `merged_empty` and keeps the empty file; fewer than two lines give `no_results_header_only_after_merge` and a failed header check gives `validation_failed` with its reason, both deleting the file; otherwise `merged_ok`, exactly when the merge succeeds |
| Parallel.RemoveFragments | scripts/openpayments_general_payments_download_2023.py:572-577 | the cleanup removes exactly the fragments of this company's pages |
| Parallel.RangeFetched | scripts/openpayments_general_payments_download_2023.py:522-549 | fetching pages `0 .. n-1` records one result per page, each as if fetched on the original files |
| Parallel.GateFailure | scripts/openpayments_general_payments_download_2023.py:557-560 | `page_download_failed` is reported exactly when some page failed, names exactly the failed pages, and merges nothing |
| Parallel.GateAllEmpty | scripts/openpayments_general_payments_download_2023.py:562-564 | `no_results_all_pages_empty` is reported exactly when no page failed and no page had a data row, before any merge |
| Parallel.GateSuccess | scripts/openpayments_general_payments_download_2023.py:566-582 | success exactly when no page failed, some page had a data row, and the merged text is non-empty, has two lines and passes the header check; then the merged file holds that text and every fragment is removed |
| Parallel.BigBadTotal | scripts/openpayments_general_payments_download_2023.py:514-516 | a non-positive page count gives `bad_expected_total` and touches nothing |
| Parallel.BigPageFailure | scripts/openpayments_general_payments_download_2023.py:527-560 | some page failing gives `page_download_failed`, naming exactly the failed pages, with `csv_<id>.csv` untouched |
| Parallel.BigAllPagesEmpty | scripts/openpayments_general_payments_download_2023.py:562-564 | no failed page and no data row gives `no_results_all_pages_empty`, with `csv_<id>.csv` untouched |
| Parallel.BigNeverMergedEmpty | scripts/openpayments_general_payments_download_2023.py:482-483 | `merged_empty` cannot happen: past the gating some page wrote a data row, so its fragment is not empty |
| Parallel.BigSuccess | scripts/openpayments_general_payments_download_2023.py:506-582 | success exactly when the count is positive, no page failed, some page had a data row, and the page-ordered concatenation has two lines and passes the header check; then `csv_<id>.csv` holds that concatenation, every fragment is removed, and the rows reported are all data lines |
| Orchestrator.ParseSlice | scripts/openpayments_general_payments_download_2023.py:138-168 | no slice exactly when the argument is absent or empty |
| Orchestrator.ParseCount | scripts/openpayments_general_payments_download_2023.py:150-153 | a bare `"<n>"` is the slice `0:n` |
| Orchestrator.ParseRange | scripts/openpayments_general_payments_download_2023.py:157-168 | `"<a>:<b>"` parses back to its bounds, with an end of -1 read as open |
| Orchestrator.ParseOpenStart | scripts/openpayments_general_payments_download_2023.py:157-168 | `":<b>"` leaves the start open |
| Orchestrator.ParseOpenEnd | scripts/openpayments_general_payments_download_2023.py:157-163 | `"<a>:"` leaves the end open |
| Orchestrator.ParseAtColon | scripts/openpayments_general_payments_download_2023.py:157-159 | an argument is split at its first colon and each side is stripped |
| Orchestrator.ApplySlice | scripts/openpayments_general_payments_download_2023.py:634 | `tasks[sl]` is a contiguous run of the tasks; with non-negative bounds `a` and `b` it is the items from `min(a, len)` up to `min(b, len)`, empty when that end comes first |
| Orchestrator.SliceFromEnd | scripts/openpayments_general_payments_download_2023.py:634 | negative bounds count from the end: `xs[-k:]` is the last `k` items, or all of them, and `xs[:-k]` is the rest |
| Orchestrator.SliceSplit | scripts/openpayments_general_payments_download_2023.py:634 | `xs[:k] + xs[k:] == xs` for every `k`, negative ones included |
| Orchestrator.SliceFirst | scripts/openpayments_general_payments_download_2023.py:153 | `xs[0:n]` is the first `n` items, or all of them |
| Orchestrator.Positive | scripts/openpayments_general_payments_download_2023.py:621-623 | after `fillna(0)` only positive totals are kept |
| Orchestrator.PositiveMembers | scripts/openpayments_general_payments_download_2023.py:621-626 | a task is kept exactly when its filled total is positive and it comes from a row of the table |
| Orchestrator.BuildTasks | scripts/openpayments_general_payments_download_2023.py:621-626 | the task list is sorted by company id, is a permutation of the positive rows, and has only positive totals |
| Orchestrator.ChooseJobs | scripts/openpayments_general_payments_download_2023.py:632-639 | the jobs are a non-empty contiguous run of the tasks, all of them without a slice; a bad slice is reported exactly when the argument does not parse |
| Orchestrator.PlanErrors | scripts/openpayments_general_payments_download_2023.py:616-639 | the early exits come in order: a missing total column, then no tasks, then a bad slice, each reported exactly in its case |
| Orchestrator.PlannedJobs | scripts/openpayments_general_payments_download_2023.py:616-639 | the jobs run are non-empty, sorted by company id, and each has a positive total taken from the table |
| Orchestrator.SmallDetails | scripts/openpayments_general_payments_download_2023.py:363-465 | the sequential download reports only its own details |
| Orchestrator.BigDetails | scripts/openpayments_general_payments_download_2023.py:514-516 | a task of more than 5000 rows spans at least two pages, so `bad_expected_total` and `merged_empty` never occur |
| Orchestrator.DispatchByTotal | scripts/openpayments_general_payments_download_2023.py:655-658 | at most 5000 expected rows go to the sequential download and more go to the page-parallel one |
| Orchestrator.RunAll | scripts/openpayments_general_payments_download_2023.py:648-672 | one report row per job, each carrying its job's id and total, with `ok` equal to the download's success |
| Orchestrator.RunAllDetails | scripts/openpayments_general_payments_download_2023.py:655-670 | row `i` carries the detail of job `i`'s own download, dispatched by its total and run on the files the earlier jobs left; the run gives up exactly when some download ran out of fuel |
| Orchestrator.OkAndFailCounts | scripts/openpayments_general_payments_download_2023.py:675-676 | successes plus failures is the number of rows, and all succeed exactly when every row is `ok` |
| Audit.StripTrims | scripts/audit_raw_csv_schema.py:139 | a stripped name has no whitespace at either end, and a name without any is left alone |
| Audit.NormalizeHeader | scripts/audit_raw_csv_schema.py:135-143 | normalisation keeps the length, strips every name, and leaves the first name without a leading byte order mark |
| Audit.NormalizeKeepsClean | scripts/audit_raw_csv_schema.py:135-143 | a header whose names are already trimmed, with no mark in front, is left as it is |
| Audit.NormalizeDropsMark | scripts/audit_raw_csv_schema.py:139-141 | a byte order mark in front of the first name is removed and nothing else changes |
| Audit.SpaceAfterMarkSurvives | scripts/audit_raw_csv_schema.py:139-141 | whitespace after a byte order mark survives normalisation, because stripping comes before dropping the mark |
| Audit.Without | scripts/audit_raw_csv_schema.py:189 | the names of one list not in the other |
| Audit.SortedDifference | scripts/audit_raw_csv_schema.py:189-190 | `sorted(list(set(a) - set(b)))` is sorted, has no duplicates, and holds exactly the names of `a` not in `b` |
| Audit.Compare | scripts/audit_raw_csv_schema.py:188-192 | the header matches exactly when it has the same names as the expected schema, as sets |
| Audit.BadCount | scripts/audit_raw_csv_schema.py:177-179 | the bad rows are at most the rows looked at |
| Audit.SampleOf | scripts/audit_raw_csv_schema.py:173-186 | bad ≤ checked ≤ `sample_rows + 1`; only the first `sample_rows` records are compared; a reader error is reported only when every record was counted |
| Audit.SampleRows | scripts/audit_raw_csv_schema.py:173-186 | the sampling loop over the reader computes `SampleOf` of every record after the header |
| Audit.AuditOneFile | scripts/audit_raw_csv_schema.py:156-214 | the counts are the header's and the schema's widths; missing and extra are the sorted set differences; the match flag holds exactly when both are empty; the counters and error are those of the sampling; a header that does not read gives an empty header and 0 rows, with `EMPTY_OR_NO_HEADER` on empty input and `CSV_ERROR` carrying the reader's error when the reader fails |
| Audit.EmptyTextHasNoHeader | scripts/audit_raw_csv_schema.py:181-190 | empty text gives `EMPTY_OR_NO_HEADER`, an empty header, and so every expected name missing |
| Totals.TotalKeyInjective | scripts/recordstotal.py:151 | different years get different `total_<year>` columns |
| Totals.Zeros | scripts/recordstotal.py:151 | the zero row has exactly the requested columns, each 0 |
| Totals.YearOfInt | scripts/recordstotal.py:169-172 | a numeric program year is read back as itself by `int(str(py))` |
| Totals.Entry | scripts/recordstotal.py:160-179 | an entry contributes only a year among the requested years |
| Totals.FoldKeys | scripts/recordstotal.py:174-179 | writing counts for requested years adds no column and removes none |
| Totals.FoldValue | scripts/recordstotal.py:160-179 | each column ends with the count of the last entry for its year, and keeps its value when no entry is for it |
| Totals.ExtractTotals | scripts/recordstotal.py:144-181 | the columns are exactly `total_<y>` for the requested years; a non-object payload or a non-list summary gives all zeros; otherwise each column holds the last entry's count for its year, or 0 |
| Totals.LaterEntryWins | scripts/recordstotal.py:174-179 | a later entry for the same year overwrites an earlier one |
| Totals.TryFrom | scripts/recordstotal.py:197-208 | from attempt `k` on, the loop makes between `k` and `max_retries` requests |
| Totals.TryFromOutcome | scripts/recordstotal.py:197-208 | after failed earlier attempts, the loop yields the first received body's totals or the last failure with zeros |
| Totals.FetchCompanyTotals | scripts/recordstotal.py:184-210 | at most `max(max_retries, 0)` requests are made |
| Totals.FetchOutcome | scripts/recordstotal.py:197-210 | the first request that gets a body ends the loop with its totals and no error; when all fail, every year is 0 and the error is the last message; with no attempt allowed the error is `Unknown error` |
| Totals.FetchColumns | scripts/recordstotal.py:197-210 | every result has exactly the requested columns, and an error means all zeros |
| Totals.View | scripts/recordstotal.py:113-122 | a page whose entries are taken is non-empty and every entry is an object |
| Totals.BatchIds | scripts/recordstotal.py:119-123 | a page yields at most one id per entry |
| Totals.BatchIdsMembers | scripts/recordstotal.py:119-123 | an id is collected exactly when some entry has that id, present and not null |
| Totals.CollectStops | scripts/recordstotal.py:107-127 | when the first `n` pages hold entries and page `n` is empty, the loop returns every id of those pages in page order |
| Totals.CollectFails | scripts/recordstotal.py:107-113 | when request `n` raises after `n` pages with entries, the loop raises that exception |
| Totals.CollectRunsOut | scripts/recordstotal.py:107-127 | the loop has not ended while every request it was allowed returned entries |
| Totals.DedupeIds | scripts/recordstotal.py:129-135 | the seen-set loop computes the first occurrences in order, without duplicates and with the same ids |
| Totals.FetchAllCompanyIds | scripts/recordstotal.py:88-138 | the result is the de-duplicated ids of every page before the first empty one, the exception of the first failing request, or the fuel bound |

## Left out

- Logging, `tqdm`, the progress bar of `recordstotal.py`, argument parsing, and report or JSON writing with pandas are output only. They are not modelled.
- Sleeps between attempts and pages are left out. The backoff delays are floating-point durations that change no result.
- The transport-level retry (`urllib3.Retry` mounted on the session) is left out. Its net effect is part of what one call returns in the `Attempts` oracle.
- Threads and completion order are left out. Page fetches are applied in page order, and `Parallel.CompletionOrderIrrelevant` shows that any duplicate-free order gives the same results and files.
- The text of `page_download_failed:<hard_fails[:3]>` depends on completion order. The model reports the set of failed pages instead.
- Exception message texts are not modelled. Failures carry the message they raised, and `request_error:`, `write_error:` and similar appear as datatype constructors.
- Totals.FetchCompanyTotals: the error message is the attempt's message as given; the `"{type(e).__name__}: {e}"` formatting is not modelled.
- `executor_error` from the page pool (line 555) is left out. `fetch_page_to_partfile` catches every exception, so it does not occur.
- Parallel.MergeParts: a `merge_error` from a failing file operation is left out, because files are a map on which writes do not fail.
- Directory creation (`ensure_dir`) and removal of the empty `_parts/<id>` directory are left out. Directories are not part of the file map.
- Sequential.Pager and Totals.Collect: the `while True` loops take a `fuel` bound on the number of requests. Runs needing more requests are answered `None` / `OutOfFuel`. With `--limit` ≤ 0 the id loop never advances its offset and only fuel ends it.
- `int(math.ceil(expected_total / PAGE_LIMIT))` is modelled as the exact integer ceiling. A float division loses precision only for totals beyond 2^53.
- Text decoding is left out. `utf-8` and `cp1252` with `errors="replace"` never raise and are taken as the identity, `utf-8-sig` drops one leading byte order mark, and the audit's decode fallback is never reached.
- `int()` on non-ASCII Unicode digits is not modelled.
- Totals.CountOf and Totals.YearOf: JSON floats are left out of the value model, so `int(12.7)` truncation is not modelled.
- `str()` of a list or object id is a parameter (`repr`), because Python's `repr` of containers is not modelled.
- Orchestrator.RunAll: runs the jobs one after another in task order. The source collects results in completion order from a thread pool. Each job touches only its own company's files, but the model does not prove that the order is irrelevant.
- Orchestrator.BuildTasks: the pandas sort is not stable and its order among equal company ids is unspecified, so the model states sortedness and permutation and fixes one order.
- Loading the totals JSON with pandas and `astype(int)` is left out. The table is given as rows of an id and an optional total.
- S3 listing, ranged reads and `head_object` are left out. The audit takes the head of the object as text, and the object size is not modelled.
- The `.csv` key filter in the audit's `main` is left out, because it is part of the listing.

## Observations

- The audit's `rows_checked` can reach `sample_rows + 1`. The counter is increased before the bound is checked, so the row after the sample is counted but never compared (`Audit.SampleOf`).
- `normalize_header` strips whitespace before removing the byte order mark. A first name written as byte order mark, space, name keeps its leading space and is then reported as both missing and extra (`Audit.SpaceAfterMarkSurvives`).
- In `download_small_sequential`, the `not wrote_header` test never decides the outcome on its own. Any stop after page 0 follows a page that had a header, so `no_results_header_only` means exactly that page 0 had no data row (`Sequential.HeaderOnlyIffFirstPageEmpty`).
- `merged_empty` cannot occur in `download_big_parallel_pages` (`Parallel.BigNeverMergedEmpty`).
