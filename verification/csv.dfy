/**
 * The record reader of Python's `csv` module with the default ("excel")
 * dialect: delimiter `,`, quote character `"`, doubled quotes inside quoted
 * fields, no escape character, non-strict, and the default field size limit.
 * The reader consumes the lines its input iterator yields; after each line it
 * sees an end-of-line marker, and a record ends at the first end-of-line met
 * outside a quoted field.
 */
module Csv {
  import opened Common
  import opened Text

  /** Default of `csv.field_size_limit()`. */
  const FIELD_LIMIT: nat := 131072

  datatype State = StartRecord | StartField | InField | InQuotedField | QuoteInQuotedField | EatCrnl

  /** Reader state: the fields of the record so far and the field being read. */
  datatype Parser = Parser(state: State, fields: seq<string>, field: string)

  datatype CsvError = FieldLargerThanLimit | NewlineInUnquotedField

  /** A character of the current line, or the end of that line. */
  datatype Input = Ch(c: char) | Eol

  datatype Step = Next(parser: Parser) | Fail(error: CsvError)

  predicate IsCrLf(x: Input) {
    x.Ch? && (x.c == '\n' || x.c == '\r')
  }

  predicate EndsLine(x: Input) {
    x.Eol? || IsCrLf(x)
  }

  function AddChar(p: Parser, c: char, next: State): Step {
    if |p.field| >= FIELD_LIMIT then Fail(FieldLargerThanLimit)
    else Next(Parser(next, p.fields, p.field + [c]))
  }

  function SaveField(p: Parser, next: State): Parser {
    Parser(next, p.fields + [p.field], "")
  }

  function AfterLineEnd(x: Input): State {
    if x.Eol? then StartRecord else EatCrnl
  }

  function StartFieldStep(p: Parser, x: Input): Step {
    if EndsLine(x) then Next(SaveField(p, AfterLineEnd(x)))
    else if x.c == '"' then Next(p.(state := InQuotedField))
    else if x.c == ',' then Next(SaveField(p, StartField))
    else AddChar(p, x.c, InField)
  }

  /** One transition of the reader. */
  function Feed(p: Parser, x: Input): Step {
    match p.state
    case StartRecord =>
      if x.Eol? then Next(p)
      else if IsCrLf(x) then Next(p.(state := EatCrnl))
      else StartFieldStep(p, x)
    case StartField => StartFieldStep(p, x)
    case InField =>
      if EndsLine(x) then Next(SaveField(p, AfterLineEnd(x)))
      else if x.c == ',' then Next(SaveField(p, StartField))
      else AddChar(p, x.c, InField)
    case InQuotedField =>
      if x.Eol? then Next(p)
      else if x.c == '"' then Next(p.(state := QuoteInQuotedField))
      else AddChar(p, x.c, InQuotedField)
    case QuoteInQuotedField =>
      if x == Ch('"') then AddChar(p, '"', InQuotedField)
      else if x == Ch(',') then Next(SaveField(p, StartField))
      else if EndsLine(x) then Next(SaveField(p, AfterLineEnd(x)))
      else AddChar(p, x.c, InField)
    case EatCrnl =>
      if IsCrLf(x) then Next(p)
      else if x.Eol? then Next(p.(state := StartRecord))
      else Fail(NewlineInUnquotedField)
  }

  function FeedChars(p: Parser, s: string): Step
    decreases |s|
  {
    if s == [] then Next(p)
    else match Feed(p, Ch(s[0]))
      case Fail(e) => Fail(e)
      case Next(q) => FeedChars(q, s[1..])
  }

  /** The characters of one line, then its end-of-line marker. */
  function FeedLine(p: Parser, line: string): Step {
    match FeedChars(p, line)
    case Fail(e) => Fail(e)
    case Next(q) => Feed(q, Eol)
  }

  /** What one `next(reader)` gives: a record and the index of the first unread line, the end, or a `csv.Error`. */
  datatype Read = Record(fields: seq<string>, next: nat) | EndOfInput | Error(error: CsvError)

  const Fresh: Parser := Parser(StartRecord, [], "")

  function ReadFrom(p: Parser, lines: seq<string>, i: nat): (r: Read)
    requires i <= |lines|
    ensures r.Record? ==> i <= r.next <= |lines|
    ensures r.Record? && r.next == i ==> |p.field| != 0 || p.state == InQuotedField
    decreases |lines| - i
  {
    if i == |lines| then
      // input exhausted inside a record: the non-strict reader keeps what it has
      if |p.field| != 0 || p.state == InQuotedField then Record(p.fields + [p.field], i) else EndOfInput
    else match FeedLine(p, lines[i])
      case Fail(e) => Error(e)
      case Next(q) => if q.state == StartRecord then Record(q.fields, i + 1) else ReadFrom(q, lines, i + 1)
  }

  /** `next(reader)` when the reader's iterator is positioned at `lines[i]`. */
  function ReadRecord(lines: seq<string>, i: nat): (r: Read)
    requires i <= |lines|
    ensures r.Record? ==> i < r.next <= |lines|
  {
    ReadFrom(Fresh, lines, i)
  }

  /** `next(csv.reader([line]))`. */
  function ParseLine(line: string): Read {
    ReadRecord([line], 0)
  }

  /** Everything the reader yields from `lines[i]` on, and the error that stopped it, if any. */
  datatype Records = Records(rows: seq<seq<string>>, error: Option<CsvError>)

  function RecordsFrom(lines: seq<string>, i: nat): Records
    requires i <= |lines|
    decreases |lines| - i
  {
    match ReadRecord(lines, i)
    case EndOfInput => Records([], None)
    case Error(e) => Records([], Some(e))
    case Record(f, n) =>
      var rest := RecordsFrom(lines, n);
      Records([f] + rest.rows, rest.error)
  }

  // ---------------------------------------------------------------------------
  // Round trips: joining fields and reading the line back gives the fields.
  // ---------------------------------------------------------------------------

  /** A field that needs no quoting. */
  predicate Plain(f: string) {
    forall i :: 0 <= i < |f| ==> f[i] != ',' && f[i] != '"' && f[i] != '\n' && f[i] != '\r'
  }

  predicate FitsLimit(fs: seq<string>) {
    forall i :: 0 <= i < |fs| ==> |fs[i]| <= FIELD_LIMIT
  }

  /** `"` + the field with every `"` doubled + `"`. */
  function Quote(f: string): string {
    "\"" + Escape(f) + "\""
  }

  function Escape(f: string): string {
    if f == [] then [] else (if f[0] == '"' then "\"\"" else [f[0]]) + Escape(f[1..])
  }

  function QuoteAll(fs: seq<string>): (r: seq<string>)
    ensures |r| == |fs|
  {
    if fs == [] then [] else [Quote(fs[0])] + QuoteAll(fs[1..])
  }

  lemma {:induction false} FeedCharsAppend(p: Parser, a: string, b: string)
    ensures FeedChars(p, a + b) == match FeedChars(p, a) { case Fail(e) => Fail(e) case Next(q) => FeedChars(q, b) }
    decreases |a|
  {
    if a != [] {
      assert (a + b)[0] == a[0] && (a + b)[1..] == a[1..] + b;
      match Feed(p, Ch(a[0]))
      case Fail(e) =>
      case Next(q) => FeedCharsAppend(q, a[1..], b);
    } else {
      assert a + b == b;
    }
  }

  /** Inside an unquoted field, plain characters are appended to it. */
  lemma {:induction false} FeedPlainInField(p: Parser, s: string)
    requires p.state == InField && Plain(s) && |p.field| + |s| <= FIELD_LIMIT
    ensures FeedChars(p, s) == Next(p.(field := p.field + s))
    decreases |s|
  {
    if s != [] {
      var q := p.(field := p.field + [s[0]]);
      assert Feed(p, Ch(s[0])) == Next(q);
      FeedPlainInField(q, s[1..]);
      assert q.field + s[1..] == p.field + s;
    }
  }

  /** The parser after an unquoted field `f` with nothing after it yet. */
  function OpenField(fields: seq<string>, f: string): Parser {
    Parser(if f == [] then StartField else InField, fields, f)
  }

  lemma FeedPlainField(fields: seq<string>, f: string)
    requires Plain(f) && |f| <= FIELD_LIMIT
    ensures FeedChars(Parser(StartField, fields, ""), f) == Next(OpenField(fields, f))
  {
    if f != [] {
      var q := Parser(InField, fields, [f[0]]);
      assert Feed(Parser(StartField, fields, ""), Ch(f[0])) == Next(q);
      FeedPlainInField(q, f[1..]);
      assert [f[0]] + f[1..] == f;
    }
  }

  lemma {:induction false} FeedPlainJoin(acc: seq<string>, fs: seq<string>)
    requires |fs| > 0 && FitsLimit(fs) && forall i :: 0 <= i < |fs| ==> Plain(fs[i])
    ensures FeedChars(Parser(StartField, acc, ""), Join(fs, ",")) == Next(OpenField(acc + fs[..|fs| - 1], fs[|fs| - 1]))
    decreases |fs|
  {
    FeedPlainField(acc, fs[0]);
    if |fs| > 1 {
      var start := Parser(StartField, acc, "");
      FeedCharsAppend(start, fs[0], "," + Join(fs[1..], ","));
      assert fs[0] + "," + Join(fs[1..], ",") == fs[0] + ("," + Join(fs[1..], ","));
      var afterComma := Parser(StartField, acc + [fs[0]], "");
      assert FeedChars(OpenField(acc, fs[0]), "," + Join(fs[1..], ",")) == FeedChars(afterComma, Join(fs[1..], ","));
      FeedPlainJoin(acc + [fs[0]], fs[1..]);
      assert acc + [fs[0]] + fs[1..][..|fs[1..]| - 1] == acc + fs[..|fs| - 1];
    }
  }

  lemma StartRecordLikeStartField(s: string)
    requires s != [] && s[0] != '\n' && s[0] != '\r'
    ensures FeedChars(Fresh, s) == FeedChars(Parser(StartField, [], ""), s)
  {
  }

  lemma JoinHead(fs: seq<string>, sep: string)
    requires |fs| > 1
    ensures Join(fs, sep) == fs[0] + sep + Join(fs[1..], sep)
  {
  }

  /** Reading a line whose characters leave the reader at `st`, a state an end of line closes. */
  lemma ReadOneLine(line: string, st: Parser)
    requires FeedChars(Fresh, line) == Next(st)
    requires st.state == StartField || st.state == InField || st.state == QuoteInQuotedField
    ensures ParseLine(line) == Record(st.fields + [st.field], 1)
  {
    var done := Parser(StartRecord, st.fields + [st.field], "");
    assert Feed(st, Eol) == Next(done);
    assert FeedLine(Fresh, line) == Next(done);
  }

  /** A line of plain fields joined by commas reads back as exactly those fields. */
  lemma {:induction false} PlainRoundTrip(fs: seq<string>)
    requires |fs| > 0 && FitsLimit(fs) && forall i :: 0 <= i < |fs| ==> Plain(fs[i])
    requires Join(fs, ",") != ""
    ensures ParseLine(Join(fs, ",")) == Record(fs, 1)
  {
    var line := Join(fs, ",");
    var n := |fs|;
    FeedPlainJoin([], fs);
    var st := OpenField([] + fs[..n - 1], fs[n - 1]);
    if |fs[0]| > 0 {
      if n > 1 {
        JoinHead(fs, ",");
      }
      assert line[0] == fs[0][0];
    } else {
      JoinHead(fs, ",");
      assert line[0] == ',';
    }
    StartRecordLikeStartField(line);
    ReadOneLine(line, st);
    assert [] + fs[..n - 1] + [fs[n - 1]] == fs;
  }

  /** Inside a quoted field, an escaped string is read back verbatim. */
  lemma {:induction false} FeedEscaped(p: Parser, f: string)
    requires p.state == InQuotedField && |p.field| + |f| <= FIELD_LIMIT
    ensures FeedChars(p, Escape(f)) == Next(p.(field := p.field + f))
    decreases |f|
  {
    if f != [] {
      var head := if f[0] == '"' then "\"\"" else [f[0]];
      var q := p.(field := p.field + [f[0]]);
      if f[0] == '"' {
        var m := p.(state := QuoteInQuotedField);
        assert Feed(p, Ch('"')) == Next(m);
        assert Feed(m, Ch('"')) == Next(q);
        assert FeedChars(m, head[1..]) == Next(q);
      }
      assert FeedChars(p, head) == Next(q);
      FeedCharsAppend(p, head, Escape(f[1..]));
      FeedEscaped(q, f[1..]);
      assert q.field + f[1..] == p.field + f;
    }
  }

  lemma FeedQuotedField(acc: seq<string>, f: string)
    requires |f| <= FIELD_LIMIT
    ensures FeedChars(Parser(StartField, acc, ""), Quote(f)) == Next(Parser(QuoteInQuotedField, acc, f))
  {
    var start := Parser(StartField, acc, "");
    var open := Parser(InQuotedField, acc, "");
    assert Quote(f) == "\"" + (Escape(f) + "\"");
    FeedCharsAppend(start, "\"", Escape(f) + "\"");
    assert FeedChars(start, "\"") == Next(open);
    FeedCharsAppend(open, Escape(f), "\"");
    FeedEscaped(open, f);
  }

  lemma {:induction false} FeedQuotedJoin(acc: seq<string>, fs: seq<string>)
    requires |fs| > 0 && FitsLimit(fs)
    ensures FeedChars(Parser(StartField, acc, ""), Join(QuoteAll(fs), ",")) == Next(Parser(QuoteInQuotedField, acc + fs[..|fs| - 1], fs[|fs| - 1]))
    decreases |fs|
  {
    var qs := QuoteAll(fs);
    assert qs[0] == Quote(fs[0]);
    FeedQuotedField(acc, fs[0]);
    if |fs| > 1 {
      var start := Parser(StartField, acc, "");
      assert qs[1..] == QuoteAll(fs[1..]);
      FeedCharsAppend(start, qs[0], "," + Join(qs[1..], ","));
      assert qs[0] + "," + Join(qs[1..], ",") == qs[0] + ("," + Join(qs[1..], ","));
      var afterComma := Parser(StartField, acc + [fs[0]], "");
      assert FeedChars(Parser(QuoteInQuotedField, acc, fs[0]), "," + Join(qs[1..], ",")) == FeedChars(afterComma, Join(qs[1..], ","));
      FeedQuotedJoin(acc + [fs[0]], fs[1..]);
      assert acc + [fs[0]] + fs[1..][..|fs[1..]| - 1] == acc + fs[..|fs| - 1];
    }
  }

  /**
   * Quoting is what makes the count quote-aware: any fields at all, commas,
   * quotes and line breaks included, survive quoting, joining and reading back.
   */
  lemma {:induction false} QuotedRoundTrip(fs: seq<string>)
    requires |fs| > 0 && FitsLimit(fs)
    ensures ParseLine(Join(QuoteAll(fs), ",")) == Record(fs, 1)
  {
    var qs := QuoteAll(fs);
    var line := Join(qs, ",");
    var n := |fs|;
    FeedQuotedJoin([], fs);
    assert qs[0] == Quote(fs[0]);
    assert Quote(fs[0])[0] == '"';
    if n > 1 {
      JoinHead(qs, ",");
      assert line == qs[0] + ("," + Join(qs[1..], ","));
    } else {
      assert line == qs[0];
    }
    assert line[0] == '"';
    StartRecordLikeStartField(line);
    ReadOneLine(line, Parser(QuoteInQuotedField, [] + fs[..n - 1], fs[n - 1]));
    assert [] + fs[..n - 1] + [fs[n - 1]] == fs;
  }
}
