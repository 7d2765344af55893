/**
 * The structural check of an assembled file (`validate_header_min_cols`):
 * decode a bounded prefix, take its first non-blank line as the header, read
 * that line as one CSV record, and compare its field count to a minimum.
 */
module Validator {
  import opened Common
  import opened Text
  import opened Csv
  import opened Files

  const MAX_VALIDATION_BYTES: nat := 512 * 1024

  /** The minimum header width the downloader demands. */
  const EXPECTED_MIN_COLS: int := 80

  /** The byte order mark the `utf-8-sig` codec writes first and strips when reading. */
  const BOM: char := '\U{FEFF}'

  datatype Verdict =
    | Valid
    | EmptyOrBinaryFile
    | TooFewColumns(actual: nat, expected: int)
    | ValidationError(cause: Cause)

  /** The exceptions the check turns into `validation_error:<e>`. */
  datatype Cause = FileMissing | HeaderUnreadable(error: CsvError) | NoHeaderRecord

  /** The bounded prefix that is examined. */
  function Sample(content: string): string {
    content[..Min(|content|, MAX_VALIDATION_BYTES)]
  }

  /** Decoding with `utf-8-sig`: one leading byte order mark is dropped. */
  function DecodeUtf8Sig(s: string): string {
    if |s| > 0 && s[0] == BOM then s[1..] else s
  }

  /** The sample decoded with `utf-8-sig`, `utf-8` and `cp1252`, in that order. */
  function Decodings(sample: string): seq<string> {
    [DecodeUtf8Sig(sample), sample, sample]
  }

  /** The first non-blank line of the first decoding that has one. */
  function HeaderLine(decodings: seq<string>): Option<string> {
    if decodings == [] then None
    else
      var lines := SplitLines(decodings[0]);
      match FirstNonBlankFrom(lines, 0)
      case Some(i) => Some(lines[i])
      case None => HeaderLine(decodings[1..])
  }

  function Validate(content: string, minCols: int): Verdict {
    match HeaderLine(Decodings(Sample(content)))
    case None => EmptyOrBinaryFile
    case Some(header) => CheckHeader(header, minCols)
  }

  /** Reading the header line as one record and counting its fields. */
  function CheckHeader(header: string, minCols: int): (v: Verdict)
    ensures v != EmptyOrBinaryFile
    ensures ParseLine(header).Record? ==> (v == Valid <==> |ParseLine(header).fields| >= minCols)
    ensures v.TooFewColumns? ==>
              && ParseLine(header).Record? && v.actual == |ParseLine(header).fields|
              && v.actual < v.expected == minCols
    ensures !ParseLine(header).Record? ==> v.ValidationError?
  {
    match ParseLine(header)
    case Error(e) => ValidationError(HeaderUnreadable(e))
    case EndOfInput => ValidationError(NoHeaderRecord)
    case Record(cols, _) => if |cols| < minCols then TooFewColumns(|cols|, minCols) else Valid
  }

  /** `validate_header_min_cols(path, minCols)`: a missing file fails to read. */
  function ValidateFile(fs: FileSystem, p: Path, minCols: int): Verdict {
    if p in fs then Validate(fs[p], minCols) else ValidationError(FileMissing)
  }

  lemma NoHeaderIffAllBlank(lines: seq<string>)
    ensures FirstNonBlankFrom(lines, 0).None? <==> !SomeNonBlank(lines)
  {
    if FirstNonBlankFrom(lines, 0).Some? {
      var i := FirstNonBlankFrom(lines, 0).value;
      assert !AllSpace(lines[i]);
    }
  }

  /** No decoding has a non-blank line exactly when every decoding is whitespace. */
  lemma {:induction false} HeaderLineNoneIff(ds: seq<string>)
    ensures HeaderLine(ds).None? <==> forall i :: 0 <= i < |ds| ==> AllSpace(ds[i])
    decreases |ds|
  {
    if ds != [] {
      SomeLineNonBlankIff(ds[0]);
      NoHeaderIffAllBlank(SplitLines(ds[0]));
      HeaderLineNoneIff(ds[1..]);
      assert forall i :: 1 <= i < |ds| ==> ds[i] == ds[1..][i - 1];
    }
  }

  /**
   * The check reports `empty_or_binary_file` exactly when the examined prefix
   * holds nothing but whitespace: line boundaries are whitespace, so any other
   * character lies on a non-blank line.
   */
  lemma EmptyIffSampleAllSpace(content: string, minCols: int)
    ensures Validate(content, minCols) == EmptyOrBinaryFile <==> AllSpace(Sample(content))
  {
    var sample := Sample(content);
    var first := DecodeUtf8Sig(sample);
    HeaderLineNoneIff(Decodings(sample));
    if AllSpace(sample) {
      assert |sample| > 0 ==> IsSpace(sample[0]);
      assert first == sample;
    } else {
      assert !AllSpace(Decodings(sample)[1]);
    }
  }

  lemma SplitLinesHead(header: string, rest: string)
    requires NoLineBreak(header)
    ensures SplitLines(header + "\n" + rest) == [header] + SplitLines(rest)
  {
    var s := header + "\n" + rest;
    var k := LineEnd(s);
    assert s[|header|] == '\n';
    assert forall j :: 0 <= j < |header| ==> s[j] == header[j];
    assert k == |header|;
    assert NextLineStart(s, k) == |header| + 1;
    assert s[..k] == header;
    assert s[|header| + 1..] == rest;
  }

  /** With the header at the front of the prefix, the header line found is that header. */
  lemma HeaderLineOfFile(header: string, rest: string)
    requires NoLineBreak(header) && !AllSpace(header)
    requires |header| + 2 <= MAX_VALIDATION_BYTES
    ensures HeaderLine(Decodings(Sample([BOM] + header + "\n" + rest))) == Some(header)
  {
    var content := [BOM] + header + "\n" + rest;
    var n := Min(|content|, MAX_VALIDATION_BYTES);
    var cut := rest[..n - |header| - 2];
    assert Sample(content) == [BOM] + header + "\n" + cut;
    assert DecodeUtf8Sig(Sample(content)) == header + "\n" + cut;
    SplitLinesHead(header, cut);
    var lines := SplitLines(header + "\n" + cut);
    assert lines[0] == header;
    assert FirstNonBlankFrom(lines, 0) == Some(0);
  }

  lemma NoLineBreakConcat(a: string, b: string)
    requires NoLineBreak(a) && NoLineBreak(b)
    ensures NoLineBreak(a + b)
  {
    assert forall i :: |a| <= i < |a + b| ==> (a + b)[i] == b[i - |a|];
  }

  lemma {:induction false} EscapeHasNoLineBreak(f: string)
    requires NoLineBreak(f)
    ensures NoLineBreak(Escape(f))
    decreases |f|
  {
    if f != [] {
      assert NoLineBreak(f[1..]) by {
        assert forall i :: 0 <= i < |f| - 1 ==> f[1..][i] == f[i + 1];
      }
      EscapeHasNoLineBreak(f[1..]);
      NoLineBreakConcat(if f[0] == '"' then "\"\"" else [f[0]], Escape(f[1..]));
    }
  }

  lemma {:induction false} QuotedJoinHasNoLineBreak(fs: seq<string>)
    requires forall i :: 0 <= i < |fs| ==> NoLineBreak(fs[i])
    ensures NoLineBreak(Join(QuoteAll(fs), ","))
    decreases |fs|
  {
    if fs != [] {
      var qs := QuoteAll(fs);
      assert qs[0] == Quote(fs[0]);
      EscapeHasNoLineBreak(fs[0]);
      NoLineBreakConcat("\"", Escape(fs[0]));
      NoLineBreakConcat("\"" + Escape(fs[0]), "\"");
      if |fs| > 1 {
        assert qs[1..] == QuoteAll(fs[1..]);
        QuotedJoinHasNoLineBreak(fs[1..]);
        JoinHead(qs, ",");
        NoLineBreakConcat(qs[0], ",");
        NoLineBreakConcat(qs[0] + ",", Join(qs[1..], ","));
      }
    }
  }

  lemma {:induction false} PlainJoinHasNoLineBreak(fs: seq<string>)
    requires forall i :: 0 <= i < |fs| ==> NoLineBreak(fs[i])
    ensures NoLineBreak(Join(fs, ","))
    decreases |fs|
  {
    if |fs| > 1 {
      JoinHead(fs, ",");
      PlainJoinHasNoLineBreak(fs[1..]);
      NoLineBreakConcat(fs[0], ",");
      NoLineBreakConcat(fs[0] + ",", Join(fs[1..], ","));
    }
  }

  lemma QuotedHeaderStartsWithQuote(fs: seq<string>)
    requires |fs| > 0
    ensures |Join(QuoteAll(fs), ",")| > 0 && Join(QuoteAll(fs), ",")[0] == '"'
  {
    var qs := QuoteAll(fs);
    assert qs[0] == Quote(fs[0]);
    if |fs| > 1 {
      JoinHead(qs, ",");
      assert Join(qs, ",") == qs[0] + ("," + Join(qs[1..], ","));
    }
  }

  /**
   * The column boundary, for a file the downloader writes (byte order mark,
   * header line, newline, data): a header of `n` quoted fields fails with
   * `too_few_columns(n<min)` when `n < min` and passes when `n >= min`, even
   * when the fields themselves contain commas or quotes.
   */
  lemma ColumnBoundary(fs: seq<string>, rest: string, minCols: int)
    requires |fs| > 0 && FitsLimit(fs)
    requires forall i :: 0 <= i < |fs| ==> NoLineBreak(fs[i])
    requires |Join(QuoteAll(fs), ",")| + 2 <= MAX_VALIDATION_BYTES
    ensures var v := Validate([BOM] + Join(QuoteAll(fs), ",") + "\n" + rest, minCols);
            if |fs| < minCols then v == TooFewColumns(|fs|, minCols) else v == Valid
  {
    var header := Join(QuoteAll(fs), ",");
    QuotedJoinHasNoLineBreak(fs);
    QuotedRoundTrip(fs);
    assert !AllSpace(header) by { QuotedHeaderStartsWithQuote(fs); }
    HeaderLineOfFile(header, rest);
    assert CheckHeader(header, minCols) == if |fs| < minCols then TooFewColumns(|fs|, minCols) else Valid;
  }

  /**
   * The same boundary for a header of bare fields (no comma, quote or line
   * break inside a field), as the datastore writes its column names: `n`
   * fields fail with `too_few_columns(n<min)` when `n < min` and pass
   * otherwise.
   */
  lemma PlainColumnBoundary(fs: seq<string>, rest: string, minCols: int)
    requires |fs| > 0 && FitsLimit(fs)
    requires forall i :: 0 <= i < |fs| ==> Plain(fs[i]) && NoLineBreak(fs[i])
    requires !AllSpace(Join(fs, ","))
    requires |Join(fs, ",")| + 2 <= MAX_VALIDATION_BYTES
    ensures var v := Validate([BOM] + Join(fs, ",") + "\n" + rest, minCols);
            if |fs| < minCols then v == TooFewColumns(|fs|, minCols) else v == Valid
  {
    var header := Join(fs, ",");
    PlainJoinHasNoLineBreak(fs);
    PlainRoundTrip(fs);
    HeaderLineOfFile(header, rest);
  }
}
