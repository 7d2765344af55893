/**
 * Writing one streamed page to a file (`fetch_page_to_partfile` and the
 * identical loop inside the sequential pager): empty lines are skipped, the
 * first non-empty line is the header and is written only when asked for,
 * every later non-empty line is a data row written with a `\n`.
 */
module Pages {
  import opened Common
  import opened Text
  import opened Files
  import opened TrailingRow
  import opened Backoff
  import Validator

  const PAGE_LIMIT: nat := 5000

  /** The lines `iter_lines` yields that the writer does not skip. */
  function NonEmpty(lines: seq<string>): (r: seq<string>)
    ensures |r| <= |lines|
    ensures forall i :: 0 <= i < |r| ==> r[i] != ""
  {
    if lines == [] then []
    else if lines[0] == "" then NonEmpty(lines[1..])
    else [lines[0]] + NonEmpty(lines[1..])
  }

  /** What the writing loop leaves: the text written and its two counters. */
  datatype Written = Written(text: string, header: nat, data: nat)

  /**
   * The writing loop over `lines`, `seen` saying whether the header has
   * already gone by; `writeHeader` is `is_first_page` (`offset == 0` in the
   * sequential pager).
   */
  function WriteFrom(lines: seq<string>, seen: bool, writeHeader: bool): (w: Written)
    ensures w.header <= 1
  {
    if lines == [] then Written("", 0, 0)
    else if lines[0] == "" then WriteFrom(lines[1..], seen, writeHeader)
    else
      var w := WriteFrom(lines[1..], true, writeHeader);
      if seen then Written(lines[0] + "\n" + w.text, w.header, w.data + 1)
      else if writeHeader then Written(lines[0] + "\n" + w.text, 1, w.data)
      else w
  }

  /**
   * The writing loop in terms of the non-empty lines: once the header has
   * gone by, every line is written and counted; before that, the first
   * non-empty line is the header, written only when asked for.
   */
  lemma {:induction false} WriteFromSpec(lines: seq<string>, seen: bool, writeHeader: bool)
    ensures var ne := NonEmpty(lines);
            var w := WriteFrom(lines, seen, writeHeader);
            if seen then w == Written(Terminated(ne), 0, |ne|)
            else if ne == [] then w == Written("", 0, 0)
            else w == Written((if writeHeader then ne[0] + "\n" else "") + Terminated(ne[1..]),
                              if writeHeader then 1 else 0, |ne| - 1)
    decreases |lines|
  {
    if lines != [] {
      WriteFromSpec(lines[1..], true, writeHeader);
      WriteFromSpec(lines[1..], seen, writeHeader);
    }
  }

  function WriteLines(lines: seq<string>, writeHeader: bool): Written {
    WriteFrom(lines, false, writeHeader)
  }

  /**
   * Encoding with `utf-8-sig`: a byte order mark goes before the first
   * character written, so decoding with `utf-8-sig` gives the text back.
   */
  function EncodeUtf8Sig(text: string): (r: string)
    ensures Validator.DecodeUtf8Sig(r) == text
    ensures r == [] <==> text == []
    ensures r != [] ==> r[0] == Validator.BOM
  {
    if text == [] then [] else [Validator.BOM] + text
  }

  /**
   * What a page's non-empty lines `ne` become in its file: nothing when
   * there are none; otherwise the header line only on the first page (after
   * the byte order mark), then every later line followed by `\n`.
   */
  function PageContents(ne: seq<string>, first: bool): string {
    if ne == [] then ""
    else if first then EncodeUtf8Sig(ne[0] + "\n" + Terminated(ne[1..]))
    else Terminated(ne[1..])
  }

  /** The file a page leaves: `utf-8-sig` on the first page, `utf-8` on the others. */
  function PageFile(w: Written, first: bool): string {
    if first then EncodeUtf8Sig(w.text) else w.text
  }

  /** Why a page fetch failed; the second is `HTTP <status> at offset <offset>`. */
  datatype PageFailure = RequestFailed(failure: Failure) | HttpStatus(status: int, offset: int) | WriteFailed

  /** The `(ok, msg, header_lines, data_lines)` a page fetch returns. */
  datatype PageResult =
    | PageOk(header: nat, data: nat)
    | EmptyPage(header: nat)
    | PageFailed(failure: PageFailure)
  {
    predicate Ok() { !PageFailed? }
    function DataLines(): nat { if PageOk? then data else 0 }
  }

  /** The file operations a page fetch performs on its fragment, and its result. */
  datatype Fetched = Fetched(result: PageResult, file: Option<string>)

  /** What the retry loop makes of the request for each offset, for one company. */
  type Requests = int -> Call

  /** The body of a page the retry loop returned with status 200, if it did. */
  function Served(call: Call): Option<Body> {
    match call
    case Returned(resp, _) => if resp.status == 200 then Some(resp.body) else None
    case Raised(_, _) => None
  }

  /**
   * `fetch_page_to_partfile`, given what the retry loop made of the request
   * for the page: rewrite the fragment from the stream, repair its tail, and
   * remove it again when no data row was written. `previous` is the
   * fragment's contents before the call.
   */
  function FetchPage(call: Call, offset: int, isFirst: bool, previous: Option<string>): (f: Fetched)
    ensures f.result.PageFailed? <==> Served(call).None? || Served(call).value.interrupted
    ensures Served(call).None? ==> f.file == previous && !f.result.failure.WriteFailed?
    ensures Served(call).Some? ==>
              var ne := NonEmpty(Served(call).value.lines);
              && (f.result.PageOk? <==> !Served(call).value.interrupted && |ne| >= 2)
              && (f.result.PageOk? ==> f.result.data == |ne| - 1 && f.file.Some? && f.file.value != "")
              && (f.result.Ok() ==> f.result.header == if isFirst && ne != [] then 1 else 0)
              && (f.result.EmptyPage? ==> f.file.None?)
  {
    match call
    case Raised(e, _) => Fetched(PageFailed(RequestFailed(e)), previous)
    case Returned(resp, _) =>
      if resp.status != 200 then Fetched(PageFailed(HttpStatus(resp.status, offset)), previous)
      else
        var w := WriteLines(resp.body.lines, isFirst);
        WriteFromSpec(resp.body.lines, false, isFirst);
        var file := PageFile(w, isFirst);
        if resp.body.interrupted then Fetched(PageFailed(WriteFailed), Some(file))
        else
          var repaired := Repair(file);
          assert repaired == file by { WrittenPageIsTerminated(resp.body.lines, isFirst); }
          if w.data == 0 then Fetched(EmptyPage(w.header), None)
          else Fetched(PageOk(w.header, w.data), Some(repaired))
  }

  /**
   * What a served page leaves in its fragment when it is kept: after `ok`,
   * and after a stream that broke, the fragment holds the header (first page
   * only) and the data lines as the writer wrote them; the repair of a
   * completed page changes nothing.
   */
  lemma FetchPageContents(call: Call, offset: int, isFirst: bool, previous: Option<string>)
    requires Served(call).Some?
    ensures var f := FetchPage(call, offset, isFirst, previous);
            f.result.PageOk? || Served(call).value.interrupted ==>
              f.file == Some(PageContents(NonEmpty(Served(call).value.lines), isFirst))
  {
    var lines := Served(call).value.lines;
    WrittenPage(lines, isFirst);
    if !Served(call).value.interrupted {
      WrittenPageIsTerminated(lines, isFirst);
    }
  }

  /** The file the writer leaves for a page's lines is `PageContents` of its non-empty lines. */
  lemma WrittenPage(lines: seq<string>, first: bool)
    ensures PageFile(WriteLines(lines, first), first) == PageContents(NonEmpty(lines), first)
  {
    WriteFromSpec(lines, false, first);
  }

  /**
   * Every line the writer emits ends in `\n`, so the trailing-row repair
   * leaves a completely streamed page as it is.
   */
  lemma WrittenPageIsTerminated(lines: seq<string>, first: bool)
    ensures var page := PageFile(WriteLines(lines, first), first); page == [] || page[|page| - 1] == '\n'
    ensures Repair(PageFile(WriteLines(lines, first), first)) == PageFile(WriteLines(lines, first), first)
  {
    var ne := NonEmpty(lines);
    var w := WriteLines(lines, first);
    WriteFromSpec(lines, false, first);
    if ne != [] {
      TerminatedEndsWithNewline(ne[1..]);
      var t := Terminated(ne[1..]);
      if first {
        assert w.text == ne[0] + "\n" + t;
      }
    }
    RepairKeepsTerminated(PageFile(w, first));
  }
}
