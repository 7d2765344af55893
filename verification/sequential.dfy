/**
 * The download of a company with at most one page of expected rows
 * (`download_small_sequential`): request pages at offsets 0, 5000, ... into
 * `csv_<id>.csv.part` until a page has no data row, then judge the result
 * and move it to `csv_<id>.csv`.
 */
module Sequential {
  import opened Common
  import opened Text
  import opened Files
  import opened TrailingRow
  import opened Backoff
  import opened Pages
  import opened Outcome
  import Validator

  /** A page that makes the pager go on: delivered whole with at least one data row. */
  predicate Continues(call: Call) {
    var b := Served(call);
    b.Some? && !b.value.interrupted && |NonEmpty(b.value.lines)| >= 2
  }

  /** Data rows a delivered page contributes. */
  function PageData(call: Call): nat {
    match Served(call)
    case Some(b) => if |NonEmpty(b.lines)| >= 1 then |NonEmpty(b.lines)| - 1 else 0
    case None => 0
  }

  /** A delivered page has a header line. */
  predicate HasHeader(call: Call) {
    Served(call).Some? && NonEmpty(Served(call).value.lines) != []
  }

  /** The text a delivered page adds to the partial file. */
  function PageText(call: Call, first: bool): string {
    match Served(call)
    case Some(b) => PageFile(WriteLines(b.lines, first), first)
    case None => ""
  }

  function DataRows(server: Requests, offsets: seq<int>): nat {
    if offsets == [] then 0 else PageData(server(offsets[0])) + DataRows(server, offsets[1..])
  }

  function PagesText(server: Requests, offsets: seq<int>): string {
    if offsets == [] then "" else PageText(server(offsets[0]), offsets[0] == 0) + PagesText(server, offsets[1..])
  }

  /** How the paging loop ended: at a page with no data row, or by a failure. */
  datatype End = Stopped(total: nat, wroteHeader: bool) | Aborted(detail: Detail)

  /**
   * The loop's end, what it leaves in `csv_<id>.csv.part` (`None`: removed),
   * and the offsets it requested, in order.
   */
  datatype Paged = Paged(end: End, partial: Option<string>, offsets: seq<int>)

  /** One page of the loop: a failure that ends it, or the page written and its counts. */
  datatype Step = Fail(detail: Detail, partial: Option<string>) | Done(text: string, data: nat, header: bool)

  /** A page delivered whole: status 200 and a stream that did not break. */
  predicate Whole(call: Call) {
    Served(call).Some? && !Served(call).value.interrupted
  }

  /** Text that is empty or ends in a newline. */
  predicate WholeLines(s: string) {
    s == [] || s[|s| - 1] == '\n'
  }

  /** The partial file before a page is written: truncated at offset 0, appended to later. */
  function Before(partial: string, offset: nat): string {
    if offset == 0 then "" else partial
  }

  /**
   * The report detail of a page that ends the loop: the retry loop raised,
   * the status was not 200, or (for a page that was served) the stream broke.
   */
  function Refusal(call: Call, offset: int): Detail {
    match call
    case Raised(e, _) => RequestError(e)
    case Returned(resp, _) => if resp.status != 200 then HttpError(resp.status, offset) else ExecutorError
  }

  /**
   * Requesting and writing the page at `offset` onto the partial file's
   * contents `partial`. A page is written in mode `w` with `utf-8-sig` at
   * offset 0 and appended with `utf-8` after that; a request or HTTP failure
   * removes the partial file; a stream that breaks raises out of the
   * function, leaving what was written.
   */
  function PagerStep(partial: string, call: Call, offset: nat): (s: Step)
    ensures var b := Served(call); s.Done? <==> b.Some? && !b.value.interrupted
    ensures s.Done? ==> s.data == PageData(call) && s.header == (offset == 0 && HasHeader(call))
    ensures s.Done? ==> s.text == Repair(Before(partial, offset) + PageText(call, offset == 0))
    ensures s.Fail? ==> s.detail == Refusal(call, offset) && (s.detail == ExecutorError <==> Served(call).Some?)
    ensures s.Fail? ==> s.partial == if s.detail == ExecutorError then Some(Before(partial, offset) + PageText(call, offset == 0)) else None
  {
    match call
    case Raised(e, _) => Fail(RequestError(e), None)
    case Returned(resp, _) =>
      if resp.status != 200 then Fail(HttpError(resp.status, offset), None)
      else
        var w := WriteLines(resp.body.lines, offset == 0);
        WriteFromSpec(resp.body.lines, false, offset == 0);
        var written := Before(partial, offset) + PageFile(w, offset == 0);
        if resp.body.interrupted then Fail(ExecutorError, Some(written))
        else Done(Repair(written), w.data, w.header == 1)
  }

  /** Whole lines followed by a written page are whole lines, which repair leaves alone. */
  lemma AppendedPageIsTerminated(before: string, call: Call, first: bool)
    requires WholeLines(before) && Served(call).Some?
    ensures WholeLines(before + PageText(call, first))
    ensures Repair(before + PageText(call, first)) == before + PageText(call, first)
  {
    var page := PageText(call, first);
    WrittenPageIsTerminated(Served(call).value.lines, first);
    if page != [] {
      assert (before + page)[|before + page| - 1] == page[|page| - 1];
    }
    RepairKeepsTerminated(before + page);
  }

  /**
   * The paging loop from `offset` on: after each page with a data row it
   * requests the next offset; `fuel` bounds the number of pages, and `None`
   * means it ran out.
   */
  function Pager(partial: string, server: Requests, offset: nat, total: nat, wrote: bool, fuel: nat): (r: Option<Paged>)
    ensures r.Some? ==> |r.value.offsets| >= 1 && r.value.offsets[0] == offset
    decreases fuel, 0
  {
    if fuel == 0 then None
    else After(PagerStep(partial, server(offset), offset), server, offset, total, wrote, fuel - 1)
  }

  /** The loop after the page at `offset` took step `st`. */
  function After(st: Step, server: Requests, offset: nat, total: nat, wrote: bool, fuel: nat): (r: Option<Paged>)
    ensures r.Some? ==> |r.value.offsets| >= 1 && r.value.offsets[0] == offset
    decreases fuel, 1
  {
    match st
    case Fail(d, partial) => Some(Paged(Aborted(d), partial, [offset]))
    case Done(text, data, header) =>
      if data == 0 then Some(Paged(Stopped(total, wrote || header), Some(text), [offset]))
      else
        match Pager(text, server, offset + PAGE_LIMIT, total + data, wrote || header, fuel)
        case None => None
        case Some(rest) => Some(Paged(rest.end, rest.partial, [offset] + rest.offsets))
  }

  /** What the loop's proofs use of a step that went through: `PagerStep`'s contract, with the repair shown to be a no-op. */
  predicate DoneFacts(partial: string, call: Call, offset: nat, s: Step) {
    && (s.Done? <==> Whole(call))
    && (s.Done? ==> s.data == PageData(call) && s.header == (offset == 0 && HasHeader(call)))
    && (s.Done? && WholeLines(Before(partial, offset)) ==>
          s.text == Before(partial, offset) + PageText(call, offset == 0) && WholeLines(s.text))
  }

  /** What the loop's proofs use of a step that ended the loop. */
  predicate FailFacts(partial: string, call: Call, offset: nat, s: Step) {
    && (s.Fail? ==> s.detail == Refusal(call, offset) && (s.detail == ExecutorError <==> Served(call).Some?))
    && (s.Fail? ==> s.partial == if s.detail == ExecutorError then Some(Before(partial, offset) + PageText(call, offset == 0)) else None)
  }

  lemma StepHasFacts(partial: string, call: Call, offset: nat)
    ensures DoneFacts(partial, call, offset, PagerStep(partial, call, offset))
    ensures FailFacts(partial, call, offset, PagerStep(partial, call, offset))
  {
    var s := PagerStep(partial, call, offset);
    if s.Done? && WholeLines(Before(partial, offset)) {
      AppendedPageIsTerminated(Before(partial, offset), call, offset == 0);
    }
  }

  /** The loop goes on after a page exactly when the step wrote a data row. */
  lemma ContinuesIffDataRow(partial: string, call: Call, offset: nat)
    ensures Continues(call) <==> PagerStep(partial, call, offset).Done? && PagerStep(partial, call, offset).data > 0
  {
  }

  /** A loop that finished took at least one step. */
  lemma PagerUnfold(partial: string, server: Requests, offset: nat, total: nat, wrote: bool, fuel: nat)
    requires Pager(partial, server, offset, total, wrote, fuel).Some?
    ensures fuel > 0
    ensures Pager(partial, server, offset, total, wrote, fuel)
            == After(PagerStep(partial, server(offset), offset), server, offset, total, wrote, fuel - 1)
  {
  }

  /** After a page with a data row, the loop's result is the rest of the loop's, with this offset in front. */
  lemma AfterGoesOn(st: Step, server: Requests, offset: nat, total: nat, wrote: bool, fuel: nat)
    requires st.Done? && st.data != 0
    requires After(st, server, offset, total, wrote, fuel).Some?
    ensures var rest := Pager(st.text, server, offset + PAGE_LIMIT, total + st.data, wrote || st.header, fuel);
            && rest.Some?
            && After(st, server, offset, total, wrote, fuel).value
               == Paged(rest.value.end, rest.value.partial, [offset] + rest.value.offsets)
  {
  }

  /** Prepending an offset one page before an arithmetic run of offsets extends the run. */
  lemma ShiftOffsets(offs: seq<int>, io: seq<int>, offset: int)
    requires offs == [offset] + io
    requires forall i :: 0 <= i < |io| ==> io[i] == offset + PAGE_LIMIT + i * PAGE_LIMIT
    ensures forall i :: 0 <= i < |offs| ==> offs[i] == offset + i * PAGE_LIMIT
  {
    forall i | 1 <= i < |offs|
      ensures offs[i] == offset + i * PAGE_LIMIT
    {
      assert offs[i] == io[i - 1];
    }
  }

  /** Every requested page but the last lets the loop go on, and the last stops it. */
  predicate StopsAtLast(server: Requests, offs: seq<int>) {
    && |offs| >= 1
    && (forall i :: 0 <= i < |offs| - 1 ==> Continues(server(offs[i])))
    && !Continues(server(offs[|offs| - 1]))
  }

  /** Prepending a page the loop goes on after keeps `StopsAtLast`. */
  lemma ShiftContinues(io: seq<int>, offset: int, server: Requests)
    requires Continues(server(offset)) && StopsAtLast(server, io)
    ensures StopsAtLast(server, [offset] + io)
  {
    var offs := [offset] + io;
    forall i | 1 <= i < |offs| - 1
      ensures Continues(server(offs[i]))
    {
      assert offs[i] == io[i - 1];
    }
    assert offs[|offs| - 1] == io[|io| - 1];
  }

  /** The loop requests consecutive offsets `PAGE_LIMIT` apart. */
  lemma {:induction false} PagerOffsets(partial: string, server: Requests, offset: nat, total: nat, wrote: bool, fuel: nat)
    requires Pager(partial, server, offset, total, wrote, fuel).Some?
    ensures var offs := Pager(partial, server, offset, total, wrote, fuel).value.offsets;
            forall i :: 0 <= i < |offs| ==> offs[i] == offset + i * PAGE_LIMIT
    decreases fuel, 0
  {
    PagerUnfold(partial, server, offset, total, wrote, fuel);
    AfterOffsets(PagerStep(partial, server(offset), offset), server, offset, total, wrote, fuel - 1);
  }

  lemma {:induction false} AfterOffsets(st: Step, server: Requests, offset: nat, total: nat, wrote: bool, fuel: nat)
    requires After(st, server, offset, total, wrote, fuel).Some?
    ensures var offs := After(st, server, offset, total, wrote, fuel).value.offsets;
            forall i :: 0 <= i < |offs| ==> offs[i] == offset + i * PAGE_LIMIT
    decreases fuel, 1
  {
    if st.Done? && st.data != 0 {
      var wrote' := wrote || st.header;
      AfterGoesOn(st, server, offset, total, wrote, fuel);
      PagerOffsets(st.text, server, offset + PAGE_LIMIT, total + st.data, wrote', fuel);
      ShiftOffsets(After(st, server, offset, total, wrote, fuel).value.offsets,
                   Pager(st.text, server, offset + PAGE_LIMIT, total + st.data, wrote', fuel).value.offsets, offset);
    }
  }

  /**
   * The loop goes on exactly while pages come back whole with a data row:
   * it stops at the first page without one, so a short page does not stop it.
   */
  lemma {:induction false} PagerContinues(partial: string, server: Requests, offset: nat, total: nat, wrote: bool, fuel: nat)
    requires Pager(partial, server, offset, total, wrote, fuel).Some?
    ensures StopsAtLast(server, Pager(partial, server, offset, total, wrote, fuel).value.offsets)
    decreases fuel, 0
  {
    PagerUnfold(partial, server, offset, total, wrote, fuel);
    ContinuesIffDataRow(partial, server(offset), offset);
    AfterContinues(PagerStep(partial, server(offset), offset), server, offset, total, wrote, fuel - 1);
  }

  lemma {:induction false} AfterContinues(st: Step, server: Requests, offset: nat, total: nat, wrote: bool, fuel: nat)
    requires After(st, server, offset, total, wrote, fuel).Some?
    requires Continues(server(offset)) <==> st.Done? && st.data > 0
    ensures StopsAtLast(server, After(st, server, offset, total, wrote, fuel).value.offsets)
    decreases fuel, 1
  {
    if st.Done? && st.data != 0 {
      var wrote' := wrote || st.header;
      AfterGoesOn(st, server, offset, total, wrote, fuel);
      PagerContinues(st.text, server, offset + PAGE_LIMIT, total + st.data, wrote', fuel);
      ShiftContinues(Pager(st.text, server, offset + PAGE_LIMIT, total + st.data, wrote', fuel).value.offsets, offset, server);
    }
  }

  /** The sums over offsets taken apart at their first offset. */
  lemma OffsetsCons(server: Requests, offset: int, rest: seq<int>)
    ensures var offs := [offset] + rest;
            && offs[|offs| - 1] == (if rest == [] then offset else rest[|rest| - 1])
            && DataRows(server, offs) == PageData(server(offset)) + DataRows(server, rest)
            && PagesText(server, offs) == PageText(server(offset), offset == 0) + PagesText(server, rest)
  {
    var offs := [offset] + rest;
    assert offs[1..] == rest;
    if rest == [] {
      assert PagesText(server, rest) == "";
      assert PageText(server(offset), offset == 0) + "" == PageText(server(offset), offset == 0);
    }
  }

  /** The sums over a single offset. */
  lemma OffsetsSingle(server: Requests, offset: int)
    ensures DataRows(server, [offset]) == PageData(server(offset))
    ensures PagesText(server, [offset]) == PageText(server(offset), offset == 0)
  {
    assert [offset][1..] == [];
    assert PageText(server(offset), offset == 0) + "" == PageText(server(offset), offset == 0);
  }

  /** The loop's counters and partial file when it stops at a page without data rows. */
  predicate StoppedAsExpected(partial: string, server: Requests, offset: nat, total: nat, wrote: bool, r: Paged) {
    StoppedCounts(server, offset, total, wrote, r) && PartialHolds(partial, server, offset, r)
  }

  predicate StoppedCounts(server: Requests, offset: nat, total: nat, wrote: bool, r: Paged) {
    && |r.offsets| >= 1 && r.end.Stopped?
    && Whole(server(r.offsets[|r.offsets| - 1]))
    && r.end.total == total + DataRows(server, r.offsets)
    && r.end.wroteHeader == (wrote || (offset == 0 && HasHeader(server(0))))
  }

  /** The partial file holds what it held before the loop's first page, then the text of every page requested. */
  predicate PartialHolds(partial: string, server: Requests, offset: nat, r: Paged) {
    r.partial == Some(Before(partial, offset) + PagesText(server, r.offsets))
  }

  /**
   * When the loop stops normally, the data rows it counted are those of all
   * pages it requested, the header flag is set exactly when page 0 had a
   * header, and the partial file holds the pages' text in offset order.
   */
  lemma {:induction false} PagerStopped(partial: string, server: Requests, offset: nat, total: nat, wrote: bool, fuel: nat)
    requires WholeLines(Before(partial, offset))
    requires Pager(partial, server, offset, total, wrote, fuel).Some?
    requires Pager(partial, server, offset, total, wrote, fuel).value.end.Stopped?
    ensures StoppedAsExpected(partial, server, offset, total, wrote, Pager(partial, server, offset, total, wrote, fuel).value)
    decreases fuel, 0
  {
    PagerUnfold(partial, server, offset, total, wrote, fuel);
    AfterStopped(partial, PagerStep(partial, server(offset), offset), server, offset, total, wrote, fuel - 1);
  }

  lemma {:induction false} AfterStopped(partial: string, st: Step, server: Requests, offset: nat, total: nat, wrote: bool, fuel: nat)
    requires WholeLines(Before(partial, offset))
    requires st == PagerStep(partial, server(offset), offset)
    requires After(st, server, offset, total, wrote, fuel).Some?
    requires After(st, server, offset, total, wrote, fuel).value.end.Stopped?
    ensures StoppedAsExpected(partial, server, offset, total, wrote, After(st, server, offset, total, wrote, fuel).value)
    decreases fuel, 3
  {
    if st.Done? && st.data != 0 {
      StoppedLater(partial, st, server, offset, total, wrote, fuel);
    } else {
      StoppedHere(partial, st, server, offset, total, wrote);
    }
  }

  lemma {:induction false} StoppedLater(partial: string, st: Step, server: Requests, offset: nat, total: nat, wrote: bool, fuel: nat)
    requires WholeLines(Before(partial, offset))
    requires st == PagerStep(partial, server(offset), offset)
    requires st.Done? && st.data != 0
    requires After(st, server, offset, total, wrote, fuel).Some?
    requires After(st, server, offset, total, wrote, fuel).value.end.Stopped?
    ensures StoppedAsExpected(partial, server, offset, total, wrote, After(st, server, offset, total, wrote, fuel).value)
    decreases fuel, 2
  {
    AfterGoesOn(st, server, offset, total, wrote, fuel);
    WrittenFacts(partial, server(offset), offset);
    StoppedRest(partial, st, server, offset, total, wrote, fuel);
  }

  /** A page that went through: its counts, and the partial file's text with the page appended. */
  predicate PageWritten(partial: string, call: Call, offset: nat, st: Step) {
    && st.Done?
    && st.data == PageData(call)
    && st.header == (offset == 0 && HasHeader(call))
    && st.text == Before(partial, offset) + PageText(call, offset == 0)
    && WholeLines(st.text)
  }

  lemma WrittenFacts(partial: string, call: Call, offset: nat)
    requires WholeLines(Before(partial, offset)) && PagerStep(partial, call, offset).Done?
    ensures PageWritten(partial, call, offset, PagerStep(partial, call, offset))
  {
    StepHasFacts(partial, call, offset);
  }

  /** The rest of the loop stopped normally, so the whole loop did, with this page in front. */
  lemma {:induction false} StoppedRest(partial: string, st: Step, server: Requests, offset: nat, total: nat, wrote: bool, fuel: nat)
    requires PageWritten(partial, server(offset), offset, st) && st.data != 0
    requires Pager(st.text, server, offset + PAGE_LIMIT, total + st.data, wrote || st.header, fuel).Some?
    requires Pager(st.text, server, offset + PAGE_LIMIT, total + st.data, wrote || st.header, fuel).value.end.Stopped?
    ensures var inner := Pager(st.text, server, offset + PAGE_LIMIT, total + st.data, wrote || st.header, fuel).value;
            StoppedAsExpected(partial, server, offset, total, wrote, Paged(inner.end, inner.partial, [offset] + inner.offsets))
    decreases fuel, 1
  {
    var next, more, seen := offset + PAGE_LIMIT, total + st.data, wrote || st.header;
    var inner := Pager(st.text, server, next, more, seen, fuel).value;
    PagerStopped(st.text, server, next, more, seen, fuel);
    StoppedCons(partial, st, server, offset, total, wrote, seen, inner);
  }

  /** The loop stopped at the page it just took. */
  lemma StoppedHere(partial: string, st: Step, server: Requests, offset: nat, total: nat, wrote: bool)
    requires WholeLines(Before(partial, offset))
    requires st == PagerStep(partial, server(offset), offset)
    requires st.Done? && st.data == 0
    ensures StoppedAsExpected(partial, server, offset, total, wrote,
                              Paged(Stopped(total, wrote || st.header), Some(st.text), [offset]))
  {
    StepHasFacts(partial, server(offset), offset);
    OffsetsSingle(server, offset);
  }

  /** The loop stopped later: the counters and text of this page go in front of the rest's. */
  lemma StoppedCons(partial: string, st: Step, server: Requests, offset: nat, total: nat, wrote: bool, seen: bool, inner: Paged)
    requires PageWritten(partial, server(offset), offset, st) && seen == (wrote || st.header)
    requires StoppedAsExpected(st.text, server, offset + PAGE_LIMIT, total + st.data, seen, inner)
    ensures StoppedAsExpected(partial, server, offset, total, wrote,
                              Paged(inner.end, inner.partial, [offset] + inner.offsets))
  {
    CountsCons(st, server, offset, total, wrote, inner);
    PartialCons(partial, st, server, offset, inner);
  }

  lemma CountsCons(st: Step, server: Requests, offset: nat, total: nat, wrote: bool, inner: Paged)
    requires st.Done? && st.data == PageData(server(offset)) && st.header == (offset == 0 && HasHeader(server(offset)))
    requires StoppedCounts(server, offset + PAGE_LIMIT, total + st.data, wrote || st.header, inner)
    ensures StoppedCounts(server, offset, total, wrote, Paged(inner.end, inner.partial, [offset] + inner.offsets))
  {
    OffsetsCons(server, offset, inner.offsets);
  }

  /** A page written onto the partial file goes in front of the text of the later pages. */
  lemma PartialCons(partial: string, st: Step, server: Requests, offset: nat, inner: Paged)
    requires st.Done? && st.text == Before(partial, offset) + PageText(server(offset), offset == 0)
    requires PartialHolds(st.text, server, offset + PAGE_LIMIT, inner)
    ensures PartialHolds(partial, server, offset, Paged(inner.end, inner.partial, [offset] + inner.offsets))
  {
    var page := PageText(server(offset), offset == 0);
    var before := Before(partial, offset);
    var later := PagesText(server, inner.offsets);
    OffsetsCons(server, offset, inner.offsets);
    assert before + page + later == before + (page + later);
  }

  /** The loop's detail and partial file when a page ends it. */
  predicate AbortedAsExpected(partial: string, server: Requests, offset: nat, r: Paged) {
    && |r.offsets| >= 1 && r.end.Aborted?
    && var last := r.offsets[|r.offsets| - 1];
    && r.end.detail == Refusal(server(last), last)
    && (r.end.detail == ExecutorError <==> Served(server(last)).Some?)
    && !Whole(server(last))
    && (r.end.detail == ExecutorError ==> PartialHolds(partial, server, offset, r))
    && (r.end.detail != ExecutorError ==> r.partial.None?)
  }

  /**
   * When a page ends the loop, the detail is that of the last page requested:
   * a request error or an HTTP status remove the partial file, and a broken
   * stream leaves the text of every page requested so far.
   */
  lemma {:induction false} PagerAborted(partial: string, server: Requests, offset: nat, total: nat, wrote: bool, fuel: nat)
    requires WholeLines(Before(partial, offset))
    requires Pager(partial, server, offset, total, wrote, fuel).Some?
    requires Pager(partial, server, offset, total, wrote, fuel).value.end.Aborted?
    ensures AbortedAsExpected(partial, server, offset, Pager(partial, server, offset, total, wrote, fuel).value)
    decreases fuel, 0
  {
    PagerUnfold(partial, server, offset, total, wrote, fuel);
    AfterAborted(partial, PagerStep(partial, server(offset), offset), server, offset, total, wrote, fuel - 1);
  }

  lemma {:induction false} AfterAborted(partial: string, st: Step, server: Requests, offset: nat, total: nat, wrote: bool, fuel: nat)
    requires WholeLines(Before(partial, offset))
    requires st == PagerStep(partial, server(offset), offset)
    requires After(st, server, offset, total, wrote, fuel).Some?
    requires After(st, server, offset, total, wrote, fuel).value.end.Aborted?
    ensures AbortedAsExpected(partial, server, offset, After(st, server, offset, total, wrote, fuel).value)
    decreases fuel, 1
  {
    StepHasFacts(partial, server(offset), offset);
    if st.Fail? {
      AbortedHere(partial, st, server, offset);
    } else {
      var wrote' := wrote || st.header;
      AfterGoesOn(st, server, offset, total, wrote, fuel);
      PagerAborted(st.text, server, offset + PAGE_LIMIT, total + st.data, wrote', fuel);
      AbortedCons(partial, st, server, offset, Pager(st.text, server, offset + PAGE_LIMIT, total + st.data, wrote', fuel).value);
    }
  }

  lemma AbortedHere(partial: string, st: Step, server: Requests, offset: nat)
    requires st == PagerStep(partial, server(offset), offset)
    requires st.Fail?
    ensures AbortedAsExpected(partial, server, offset, Paged(Aborted(st.detail), st.partial, [offset]))
  {
    StepHasFacts(partial, server(offset), offset);
    OffsetsSingle(server, offset);
  }

  lemma AbortedCons(partial: string, st: Step, server: Requests, offset: nat, inner: Paged)
    requires WholeLines(Before(partial, offset))
    requires st == PagerStep(partial, server(offset), offset)
    requires st.Done?
    requires AbortedAsExpected(st.text, server, offset + PAGE_LIMIT, inner)
    ensures AbortedAsExpected(partial, server, offset, Paged(inner.end, inner.partial, [offset] + inner.offsets))
  {
    StepHasFacts(partial, server(offset), offset);
    OffsetsCons(server, offset, inner.offsets);
    if inner.end.detail == ExecutorError {
      PartialCons(partial, st, server, offset, inner);
    }
  }

  /** What the loop lemmas establish about a run from offset 0 on an empty partial file. */
  predicate LoopFacts(server: Requests, p: Paged) {
    && (forall i :: 0 <= i < |p.offsets| ==> p.offsets[i] == i * PAGE_LIMIT)
    && StopsAtLast(server, p.offsets)
    && (p.end.Stopped? ==> StoppedAsExpected("", server, 0, 0, false, p))
    && (p.end.Aborted? ==> AbortedAsExpected("", server, 0, p))
  }

  /** The loop run by `download_small_sequential`, from offset 0 on an empty partial file. */
  function Loop0(server: Requests, fuel: nat): Option<Paged> {
    Pager("", server, 0, 0, false, fuel)
  }

  lemma Loop0Facts(server: Requests, fuel: nat)
    requires Loop0(server, fuel).Some?
    ensures LoopFacts(server, Loop0(server, fuel).value)
  {
    PagerOffsets("", server, 0, 0, false, fuel);
    PagerContinues("", server, 0, 0, false, fuel);
    if Loop0(server, fuel).value.end.Stopped? {
      PagerStopped("", server, 0, 0, false, fuel);
    } else {
      PagerAborted("", server, 0, 0, false, fuel);
    }
  }

  /**
   * The end of `download_small_sequential` once the loop `p` is over, on the
   * file system `fs` from which a stale partial file was removed: a failed
   * page reports its detail, removing the partial file unless the stream
   * broke; no header or no data row gives `no_results_header_only`; a failed
   * header check `validation_failed`; otherwise the partial file replaces
   * `csv_<id>.csv`.
   */
  function Judge(fs: FileSystem, id: string, p: Paged): (r: Run)
    requires PartialArtifact(id) !in fs
    ensures forall q :: q != PartialArtifact(id) && q != Artifact(id) ==> Get(r.fs, q) == Get(fs, q)
    ensures !r.detail.Ok() ==> Get(r.fs, Artifact(id)) == Get(fs, Artifact(id))
    ensures r.detail != ExecutorError ==> PartialArtifact(id) !in r.fs
    ensures r.offsets == p.offsets
  {
    var tmp := PartialArtifact(id);
    var written := Put(fs, tmp, p.partial);
    match p.end
    case Aborted(d) => Run(d, if d == ExecutorError then written else fs, p.offsets)
    case Stopped(total, wrote) =>
      if !wrote || total == 0 then Run(NoResultsHeaderOnly, fs, p.offsets)
      else
        var v := Validator.ValidateFile(written, tmp, Validator.EXPECTED_MIN_COLS);
        if v != Validator.Valid then Run(ValidationFailed(v), fs, p.offsets)
        else Run(DownloadedSmallOk(total), fs[Artifact(id) := Contents(written, tmp)], p.offsets)
  }

  /** `download_small_sequential`: `None` when `fuel` pages were not enough for the loop to end. */
  function DownloadSmall(fs: FileSystem, id: string, server: Requests, fuel: nat): Option<Run> {
    match Loop0(server, fuel)
    case None => None
    case Some(p) => Some(Judge(fs - {PartialArtifact(id)}, id, p))
  }

  /** A page that lets the loop go on has a header and a data row. */
  lemma ContinuesHasData(call: Call)
    requires Continues(call)
    ensures HasHeader(call) && PageData(call) >= 1
  {
  }

  /** The first page's data rows are among the rows counted. */
  lemma DataRowsFirst(server: Requests, offs: seq<int>)
    requires |offs| >= 1
    ensures DataRows(server, offs) >= PageData(server(offs[0]))
  {
  }

  lemma JudgeHeaderOnly(fs: FileSystem, id: string, server: Requests, p: Paged)
    requires PartialArtifact(id) !in fs && LoopFacts(server, p)
    ensures Judge(fs, id, p).detail == NoResultsHeaderOnly <==> Whole(server(0)) && !Continues(server(0))
  {
    var offs := p.offsets;
    assert offs[0] == 0;
    if p.end.Aborted? {
      assert AbortedAsExpected("", server, 0, p);
    } else {
      assert StoppedCounts(server, 0, 0, false, p);
    }
    JudgeHeaderOnlyIff(fs, id, p);
    if |offs| >= 2 {
      assert Continues(server(offs[0]));
      ContinuesHasData(server(0));
      DataRowsFirst(server, offs);
    } else {
      assert offs == [0];
      OffsetsSingle(server, 0);
    }
  }

  /** Judging reports `no_results_header_only` exactly for a normal stop without header or data rows. */
  lemma JudgeHeaderOnlyIff(fs: FileSystem, id: string, p: Paged)
    requires PartialArtifact(id) !in fs
    requires p.end.Aborted? ==> p.end.detail != NoResultsHeaderOnly
    ensures Judge(fs, id, p).detail == NoResultsHeaderOnly <==> p.end.Stopped? && (!p.end.wroteHeader || p.end.total == 0)
  {
  }

  /** A page with a data row has a header line before it. */
  lemma DataHasHeader(call: Call)
    requires PageData(call) > 0
    ensures HasHeader(call)
  {
  }

  /** Judging a loop that stopped normally, with `text` in the partial file. */
  lemma JudgeStopped(fs: FileSystem, id: string, p: Paged, text: string)
    requires PartialArtifact(id) !in fs && p.end.Stopped? && p.partial == Some(text)
    ensures Judge(fs, id, p).detail.DownloadedSmallOk? <==>
              p.end.wroteHeader && p.end.total > 0 && Validator.Validate(text, Validator.EXPECTED_MIN_COLS) == Validator.Valid
    ensures Judge(fs, id, p).detail.DownloadedSmallOk? ==>
              Judge(fs, id, p).fs == fs[Artifact(id) := text] && Judge(fs, id, p).detail.rows == p.end.total
    ensures Judge(fs, id, p).detail.ValidationFailed? <==>
              p.end.wroteHeader && p.end.total > 0 && Validator.Validate(text, Validator.EXPECTED_MIN_COLS) != Validator.Valid
    ensures Judge(fs, id, p).detail.ValidationFailed? ==>
              && Judge(fs, id, p).detail == ValidationFailed(Validator.Validate(text, Validator.EXPECTED_MIN_COLS))
              && Judge(fs, id, p).fs == fs
  {
    var tmp := PartialArtifact(id);
    var written := fs[tmp := text];
    assert Put(fs, tmp, p.partial) == written;
    assert Validator.ValidateFile(written, tmp, Validator.EXPECTED_MIN_COLS) == Validator.Validate(text, Validator.EXPECTED_MIN_COLS);
    assert Contents(written, tmp) == text;
  }

  /** When the loop stops normally, a data row was counted only if page 0 had a header. */
  lemma StoppedWithRowsHasHeader(server: Requests, p: Paged)
    requires LoopFacts(server, p) && p.end.Stopped? && DataRows(server, p.offsets) > 0
    ensures HasHeader(server(0))
  {
    var offs := p.offsets;
    assert offs[0] == 0;
    if |offs| >= 2 {
      assert Continues(server(offs[0]));
      ContinuesHasData(server(0));
    } else {
      assert offs == [0];
      OffsetsSingle(server, 0);
      DataHasHeader(server(0));
    }
  }

  lemma JudgeSuccess(fs: FileSystem, id: string, server: Requests, p: Paged)
    requires PartialArtifact(id) !in fs && LoopFacts(server, p)
    ensures var r := Judge(fs, id, p);
            r.detail.DownloadedSmallOk? <==>
              && Whole(server(p.offsets[|p.offsets| - 1]))
              && DataRows(server, p.offsets) > 0
              && Validator.Validate(PagesText(server, p.offsets), Validator.EXPECTED_MIN_COLS) == Validator.Valid
    ensures var r := Judge(fs, id, p);
            r.detail.DownloadedSmallOk? ==>
              && r.fs == fs[Artifact(id) := PagesText(server, p.offsets)]
              && r.detail.rows == DataRows(server, p.offsets) > 0
  {
    var text := PagesText(server, p.offsets);
    if p.end.Stopped? {
      assert StoppedAsExpected("", server, 0, 0, false, p);
      assert p.partial == Some(text) by {
        assert "" + text == text;
      }
      JudgeStopped(fs, id, p, text);
      if DataRows(server, p.offsets) > 0 {
        StoppedWithRowsHasHeader(server, p);
      }
    } else {
      assert AbortedAsExpected("", server, 0, p);
    }
  }

  lemma JudgeValidationFailure(fs: FileSystem, id: string, server: Requests, p: Paged)
    requires PartialArtifact(id) !in fs && LoopFacts(server, p)
    ensures var r := Judge(fs, id, p);
            var v := Validator.Validate(PagesText(server, p.offsets), Validator.EXPECTED_MIN_COLS);
            r.detail.ValidationFailed? <==>
              && Whole(server(p.offsets[|p.offsets| - 1]))
              && DataRows(server, p.offsets) > 0
              && v != Validator.Valid
    ensures var r := Judge(fs, id, p);
            var v := Validator.Validate(PagesText(server, p.offsets), Validator.EXPECTED_MIN_COLS);
            r.detail.ValidationFailed? ==> r.detail == ValidationFailed(v) && r.fs == fs
  {
    var text := PagesText(server, p.offsets);
    if p.end.Stopped? {
      assert StoppedAsExpected("", server, 0, 0, false, p);
      assert p.partial == Some(text) by {
        assert "" + text == text;
      }
      JudgeStopped(fs, id, p, text);
      if DataRows(server, p.offsets) > 0 {
        StoppedWithRowsHasHeader(server, p);
      }
    } else {
      assert AbortedAsExpected("", server, 0, p);
      JudgeAborted(fs, id, p);
    }
  }

  lemma JudgeFailure(fs: FileSystem, id: string, server: Requests, p: Paged)
    requires PartialArtifact(id) !in fs && LoopFacts(server, p)
    ensures var r := Judge(fs, id, p);
            var last := p.offsets[|p.offsets| - 1];
            (r.detail.RequestError? || r.detail.HttpError? || r.detail == ExecutorError) ==>
              && r.detail == Refusal(server(last), last)
              && !Whole(server(last))
              && (r.detail == ExecutorError ==> r.fs == fs[PartialArtifact(id) := PagesText(server, p.offsets)])
  {
    if p.end.Aborted? {
      assert AbortedAsExpected("", server, 0, p);
      JudgeAborted(fs, id, p);
      assert "" + PagesText(server, p.offsets) == PagesText(server, p.offsets);
    } else {
      JudgeStoppedDetail(fs, id, p);
    }
  }

  /** Judging a loop a page ended reports that page's detail, writing the partial file only for a broken stream. */
  lemma JudgeAborted(fs: FileSystem, id: string, p: Paged)
    requires PartialArtifact(id) !in fs && p.end.Aborted?
    ensures Judge(fs, id, p).detail == p.end.detail
    ensures Judge(fs, id, p).fs == if p.end.detail == ExecutorError then Put(fs, PartialArtifact(id), p.partial) else fs
  {
  }

  /** Judging a loop that stopped normally reports no request, HTTP or stream failure. */
  lemma JudgeStoppedDetail(fs: FileSystem, id: string, p: Paged)
    requires PartialArtifact(id) !in fs && p.end.Stopped?
    ensures var d := Judge(fs, id, p).detail; !d.RequestError? && !d.HttpError? && d != ExecutorError
  {
  }

  /**
   * The download requests offsets 0, 5000, 10000, ... and stops at the first
   * page that is not delivered whole with a data row; a short page does not
   * stop it.
   */
  lemma SmallOffsets(fs: FileSystem, id: string, server: Requests, fuel: nat)
    requires DownloadSmall(fs, id, server, fuel).Some?
    ensures var r := DownloadSmall(fs, id, server, fuel).value;
            && |r.offsets| >= 1
            && (forall i :: 0 <= i < |r.offsets| ==> r.offsets[i] == i * PAGE_LIMIT)
            && (forall i :: 0 <= i < |r.offsets| - 1 ==> Continues(server(r.offsets[i])))
            && !Continues(server(r.offsets[|r.offsets| - 1]))
  {
    var p := Loop0(server, fuel).value;
    PagerOffsets("", server, 0, 0, false, fuel);
    PagerContinues("", server, 0, 0, false, fuel);
    assert DownloadSmall(fs, id, server, fuel).value.offsets == p.offsets;
  }

  /** Only `csv_<id>.csv` and its partial file can change. */
  lemma SmallFrame(fs: FileSystem, id: string, server: Requests, fuel: nat)
    requires DownloadSmall(fs, id, server, fuel).Some?
    ensures var r := DownloadSmall(fs, id, server, fuel).value;
            forall q :: q != PartialArtifact(id) && q != Artifact(id) ==> Get(r.fs, q) == Get(fs, q)
  {
    var r := DownloadSmall(fs, id, server, fuel).value;
    forall q | q != PartialArtifact(id) && q != Artifact(id)
      ensures Get(r.fs, q) == Get(fs, q)
    {
      assert Get(r.fs, q) == Get(fs - {PartialArtifact(id)}, q);
    }
  }

  /**
   * `no_results_header_only` exactly when page 0 comes back whole without a
   * data row: any later page without data rows follows one with a header
   * and data, so the header flag never decides on its own.
   */
  lemma HeaderOnlyIffFirstPageEmpty(fs: FileSystem, id: string, server: Requests, fuel: nat)
    requires DownloadSmall(fs, id, server, fuel).Some?
    ensures DownloadSmall(fs, id, server, fuel).value.detail == NoResultsHeaderOnly
            <==> Whole(server(0)) && !Continues(server(0))
  {
    Loop0Facts(server, fuel);
    JudgeHeaderOnly(fs - {PartialArtifact(id)}, id, server, Loop0(server, fuel).value);
  }

  /**
   * A successful download leaves `csv_<id>.csv` holding the text of every
   * page requested, in offset order, and removes the partial file; the rows
   * reported are the data rows of all pages, at least one. It succeeds
   * exactly when the loop ended at a page delivered whole, a data row was
   * written, and that text passes the header check.
   */
  lemma SmallSuccess(fs: FileSystem, id: string, server: Requests, fuel: nat)
    requires DownloadSmall(fs, id, server, fuel).Some?
    ensures var r := DownloadSmall(fs, id, server, fuel).value;
            r.detail.DownloadedSmallOk? <==>
              && Whole(server(r.offsets[|r.offsets| - 1]))
              && DataRows(server, r.offsets) > 0
              && Validator.Validate(PagesText(server, r.offsets), Validator.EXPECTED_MIN_COLS) == Validator.Valid
    ensures var r := DownloadSmall(fs, id, server, fuel).value;
            r.detail.DownloadedSmallOk? ==>
              && r.fs == (fs - {PartialArtifact(id)})[Artifact(id) := PagesText(server, r.offsets)]
              && r.detail.rows == DataRows(server, r.offsets) > 0
  {
    Loop0Facts(server, fuel);
    JudgeSuccess(fs - {PartialArtifact(id)}, id, server, Loop0(server, fuel).value);
  }

  /**
   * A request error or an HTTP status reports the last page requested and
   * removes the partial file; a broken stream leaves in it the text of every
   * page requested. No failure touches `csv_<id>.csv`.
   */
  lemma SmallFailure(fs: FileSystem, id: string, server: Requests, fuel: nat)
    requires DownloadSmall(fs, id, server, fuel).Some?
    ensures var r := DownloadSmall(fs, id, server, fuel).value;
            var last := r.offsets[|r.offsets| - 1];
            (r.detail.RequestError? || r.detail.HttpError? || r.detail == ExecutorError) ==>
              && r.detail == Refusal(server(last), last)
              && !Whole(server(last))
              && (r.detail == ExecutorError ==> r.fs == (fs - {PartialArtifact(id)})[PartialArtifact(id) := PagesText(server, r.offsets)])
              && (r.detail != ExecutorError ==> r.fs == fs - {PartialArtifact(id)})
    ensures var r := DownloadSmall(fs, id, server, fuel).value;
            !r.detail.Ok() ==> Get(r.fs, Artifact(id)) == Get(fs, Artifact(id))
  {
    Loop0Facts(server, fuel);
    JudgeFailure(fs - {PartialArtifact(id)}, id, server, Loop0(server, fuel).value);
  }

  /**
   * A failed header check reports `validation_failed:<reason>` with the
   * reason the check gives for the text of every page requested, and
   * removes the partial file, leaving `csv_<id>.csv` as it was. It happens
   * exactly when the loop ended at a page delivered whole, a data row was
   * written, and that text fails the check.
   */
  lemma SmallValidationFailure(fs: FileSystem, id: string, server: Requests, fuel: nat)
    requires DownloadSmall(fs, id, server, fuel).Some?
    ensures var r := DownloadSmall(fs, id, server, fuel).value;
            var v := Validator.Validate(PagesText(server, r.offsets), Validator.EXPECTED_MIN_COLS);
            r.detail.ValidationFailed? <==>
              && Whole(server(r.offsets[|r.offsets| - 1]))
              && DataRows(server, r.offsets) > 0
              && v != Validator.Valid
    ensures var r := DownloadSmall(fs, id, server, fuel).value;
            var v := Validator.Validate(PagesText(server, r.offsets), Validator.EXPECTED_MIN_COLS);
            r.detail.ValidationFailed? ==> r.detail == ValidationFailed(v) && r.fs == fs - {PartialArtifact(id)}
  {
    Loop0Facts(server, fuel);
    JudgeValidationFailure(fs - {PartialArtifact(id)}, id, server, Loop0(server, fuel).value);
  }
}
