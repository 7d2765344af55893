/**
 * The per-company result of the downloader: the message of the report row
 * and whether it counts as a success.
 */
module Outcome {
  import opened Backoff
  import opened Files
  import Validator

  datatype Detail =
    | RequestError(failure: Failure)                // `request_error:<e>`
    | HttpError(status: int, offset: int)           // `HTTP <status> at offset <offset>`
    | NoResultsHeaderOnly                           // `no_results_header_only`
    | ValidationFailed(verdict: Validator.Verdict)  // `validation_failed:<reason>`
    | DownloadedSmallOk(rows: nat)                  // `downloaded_small_ok_rows~<rows>`
    | BadExpectedTotal                              // `bad_expected_total`
    | PageDownloadFailed(failed: set<nat>)          // `page_download_failed:<first three>`
    | NoResultsAllPagesEmpty                        // `no_results_all_pages_empty`
    | MergedEmpty                                   // `merged_empty`
    | NoResultsHeaderOnlyAfterMerge                 // `no_results_header_only_after_merge`
    | DownloadedBigOk(pages: nat, rows: nat)        // `downloaded_big_ok_pages=<n>_rows~<rows>`
    | ExecutorError                                 // `executor_error:<e>`
    | MergedOk                                      // `merged_ok`, the message of a successful merge
  {
    predicate Ok() { DownloadedSmallOk? || DownloadedBigOk? }
  }

  /** The result of one company's download: the report detail, the files afterwards, the offsets requested. */
  datatype Run = Run(detail: Detail, fs: FileSystem, offsets: seq<int>)
}
