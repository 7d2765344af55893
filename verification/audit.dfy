/**
 * The schema audit of a raw payments CSV (`normalize_header` and the
 * header and sampling logic of `audit_one_file`): read the header record
 * from the head of the file, compare its normalised column names with the
 * expected schema as sets, and count sampled data rows whose field count
 * differs from the header's. The head of the file is given as text.
 */
module Audit {
  import opened Common
  import opened Text
  import opened Csv
  import opened Ordering
  import opened Unique
  import Validator

  /** The column names of the payments schema, in file order. */
  const EXPECTED_COLUMNS: seq<string> := [
    "Change_Type", "Covered_Recipient_Type", "Teaching_Hospital_CCN", "Teaching_Hospital_ID",
    "Teaching_Hospital_Name", "Covered_Recipient_Profile_ID", "Covered_Recipient_NPI",
    "Covered_Recipient_First_Name", "Covered_Recipient_Middle_Name", "Covered_Recipient_Last_Name",
    "Covered_Recipient_Name_Suffix", "Recipient_Primary_Business_Street_Address_Line1",
    "Recipient_Primary_Business_Street_Address_Line2", "Recipient_City", "Recipient_State",
    "Recipient_Zip_Code", "Recipient_Country", "Recipient_Province", "Recipient_Postal_Code",
    "Covered_Recipient_Primary_Type_1", "Covered_Recipient_Primary_Type_2",
    "Covered_Recipient_Primary_Type_3", "Covered_Recipient_Primary_Type_4",
    "Covered_Recipient_Primary_Type_5", "Covered_Recipient_Primary_Type_6",
    "Covered_Recipient_Specialty_1", "Covered_Recipient_Specialty_2",
    "Covered_Recipient_Specialty_3", "Covered_Recipient_Specialty_4",
    "Covered_Recipient_Specialty_5", "Covered_Recipient_Specialty_6",
    "Covered_Recipient_License_State_code1", "Covered_Recipient_License_State_code2",
    "Covered_Recipient_License_State_code3", "Covered_Recipient_License_State_code4",
    "Covered_Recipient_License_State_code5",
    "Submitting_Applicable_Manufacturer_or_Applicable_GPO_Name",
    "Applicable_Manufacturer_or_Applicable_GPO_Making_Payment_ID",
    "Applicable_Manufacturer_or_Applicable_GPO_Making_Payment_Name",
    "Applicable_Manufacturer_or_Applicable_GPO_Making_Payment_State",
    "Applicable_Manufacturer_or_Applicable_GPO_Making_Payment_Country",
    "Total_Amount_of_Payment_USDollars", "Date_of_Payment",
    "Number_of_Payments_Included_in_Total_Amount", "Form_of_Payment_or_Transfer_of_Value",
    "Nature_of_Payment_or_Transfer_of_Value", "City_of_Travel", "State_of_Travel",
    "Country_of_Travel", "Physician_Ownership_Indicator",
    "Third_Party_Payment_Recipient_Indicator",
    "Name_of_Third_Party_Entity_Receiving_Payment_or_Transfer_of_Value", "Charity_Indicator",
    "Third_Party_Equals_Covered_Recipient_Indicator", "Contextual_Information",
    "Delay_in_Publication_Indicator", "Record_ID", "Dispute_Status_for_Publication",
    "Related_Product_Indicator", "Covered_or_Noncovered_Indicator_1",
    "Indicate_Drug_or_Biological_or_Device_or_Medical_Supply_1",
    "Product_Category_or_Therapeutic_Area_1",
    "Name_of_Drug_or_Biological_or_Device_or_Medical_Supply_1",
    "Associated_Drug_or_Biological_NDC_1", "Associated_Device_or_Medical_Supply_PDI_1",
    "Covered_or_Noncovered_Indicator_2",
    "Indicate_Drug_or_Biological_or_Device_or_Medical_Supply_2",
    "Product_Category_or_Therapeutic_Area_2",
    "Name_of_Drug_or_Biological_or_Device_or_Medical_Supply_2",
    "Associated_Drug_or_Biological_NDC_2", "Associated_Device_or_Medical_Supply_PDI_2",
    "Covered_or_Noncovered_Indicator_3",
    "Indicate_Drug_or_Biological_or_Device_or_Medical_Supply_3",
    "Product_Category_or_Therapeutic_Area_3",
    "Name_of_Drug_or_Biological_or_Device_or_Medical_Supply_3",
    "Associated_Drug_or_Biological_NDC_3", "Associated_Device_or_Medical_Supply_PDI_3",
    "Covered_or_Noncovered_Indicator_4",
    "Indicate_Drug_or_Biological_or_Device_or_Medical_Supply_4",
    "Product_Category_or_Therapeutic_Area_4",
    "Name_of_Drug_or_Biological_or_Device_or_Medical_Supply_4",
    "Associated_Drug_or_Biological_NDC_4", "Associated_Device_or_Medical_Supply_PDI_4",
    "Covered_or_Noncovered_Indicator_5",
    "Indicate_Drug_or_Biological_or_Device_or_Medical_Supply_5",
    "Product_Category_or_Therapeutic_Area_5",
    "Name_of_Drug_or_Biological_or_Device_or_Medical_Supply_5",
    "Associated_Drug_or_Biological_NDC_5", "Associated_Device_or_Medical_Supply_PDI_5",
    "Program_Year", "Payment_Publication_Date"
  ]

  /** A name with no whitespace at either end, as `strip` leaves it. */
  predicate Trimmed(c: string) {
    c == [] || (!IsSpace(c[0]) && !IsSpace(c[|c| - 1]))
  }

  lemma StripTrims(c: string)
    ensures Trimmed(Strip(c))
    ensures Trimmed(c) ==> Strip(c) == c
  {
    var t := StripStart(c);
    var r := StripEnd(t);
    if r != [] {
      assert r[0] == t[0];
    }
    if Trimmed(c) && c != [] {
      StripKeepsNonSpaceEnds(c);
    }
  }

  /** How `normalize_header` treats the name at position `i`. */
  function NormalizeName(i: nat, c: string): string {
    if i == 0 then StripLeading(Strip(c), Validator.BOM) else Strip(c)
  }

  /** `normalize_header`: strip every column name, and drop leading byte-order marks from the first one. */
  function NormalizeHeader(cols: seq<string>): (r: seq<string>)
    ensures |r| == |cols|
    ensures forall i :: 0 <= i < |r| ==> r[i] == NormalizeName(i, cols[i])
    ensures forall i :: 0 < i < |r| ==> Trimmed(r[i])
    ensures |r| > 0 ==> r[0] == [] || r[0][0] != Validator.BOM
  {
    var r := seq(|cols|, i requires 0 <= i < |cols| => NormalizeName(i, cols[i]));
    forall i | 0 < i < |r| ensures Trimmed(r[i]) {
      StripTrims(cols[i]);
    }
    r
  }

  /** A trimmed name is left as it is, and the first also needs no byte-order mark in front. */
  lemma NormalizeNameClean(i: nat, c: string)
    requires Trimmed(c)
    requires i == 0 ==> c == [] || c[0] != Validator.BOM
    ensures NormalizeName(i, c) == c
  {
    StripTrims(c);
  }

  /** A header whose names are already trimmed, the first without a byte-order mark, is left as it is. */
  lemma NormalizeKeepsClean(cols: seq<string>)
    requires forall i :: 0 <= i < |cols| ==> Trimmed(cols[i])
    requires |cols| > 0 ==> cols[0] == [] || cols[0][0] != Validator.BOM
    ensures NormalizeHeader(cols) == cols
  {
    var r := NormalizeHeader(cols);
    forall i | 0 <= i < |cols| ensures r[i] == cols[i] {
      NormalizeNameClean(i, cols[i]);
    }
  }

  lemma StripOneMark(f: string)
    requires f != [] && f[0] == Validator.BOM
    requires |f| == 1 || f[1] != Validator.BOM
    ensures StripLeading(f, Validator.BOM) == f[1..]
  {
  }

  /** The mark is not whitespace, so a name starting with it and ending in non-whitespace is trimmed. */
  lemma MarkedTrimmed(f: string)
    requires f != [] && f[0] == Validator.BOM && !IsSpace(f[|f| - 1])
    ensures Strip(f) == f
  {
    assert !IsSpace(Validator.BOM);
    StripTrims(f);
  }

  /** A single byte-order mark in front of a trimmed first name is removed. */
  lemma NormalizeNameMark(f: string)
    requires f != [] && f[0] == Validator.BOM
    requires |f| == 1 || f[1] != Validator.BOM
    requires Trimmed(f[1..])
    ensures NormalizeName(0, f) == f[1..]
  {
    if |f| > 1 {
      assert f[|f| - 1] == f[1..][|f| - 2];
    }
    MarkedTrimmed(f);
    StripOneMark(f);
  }

  /** A byte-order mark in front of the first name is removed, and nothing else changes. */
  lemma NormalizeDropsMark(cols: seq<string>)
    requires cols != [] && cols[0] != [] && cols[0][0] == Validator.BOM
    requires |cols[0]| == 1 || cols[0][1] != Validator.BOM
    requires Trimmed(cols[0][1..])
    requires forall i :: 0 < i < |cols| ==> Trimmed(cols[i])
    ensures NormalizeHeader(cols) == [cols[0][1..]] + cols[1..]
  {
    var r := NormalizeHeader(cols);
    NormalizeNameMark(cols[0]);
    forall i | 0 < i < |cols| ensures r[i] == cols[i] {
      NormalizeNameClean(i, cols[i]);
    }
  }

  /**
   * Whitespace is stripped before the byte-order mark is dropped, so
   * whitespace that follows the mark survives normalisation.
   */
  lemma SpaceAfterMarkSurvives(cols: seq<string>)
    requires cols != [] && |cols[0]| >= 2 && cols[0][0] == Validator.BOM && cols[0][1] == ' '
    requires !IsSpace(cols[0][|cols[0]| - 1])
    ensures NormalizeHeader(cols)[0] == cols[0][1..]
    ensures IsSpace(NormalizeHeader(cols)[0][0])
  {
    NormalizeNameSpaced(cols[0]);
  }

  lemma NormalizeNameSpaced(c: string)
    requires |c| >= 2 && c[0] == Validator.BOM && c[1] == ' ' && !IsSpace(c[|c| - 1])
    ensures NormalizeName(0, c) == c[1..]
  {
    MarkedTrimmed(c);
    StripOneMark(c);
  }

  /** The elements of `a` that are not in `b`, in order. */
  function Without(a: seq<string>, b: seq<string>): (r: seq<string>)
    ensures forall x :: x in r <==> x in a && x !in b
  {
    if a == [] then []
    else
      assert forall x :: x in a <==> x == a[0] || x in a[1..] by {
        assert a == [a[0]] + a[1..];
      }
      if a[0] in b then Without(a[1..], b) else [a[0]] + Without(a[1..], b)
  }

  /** A column name is its own sort key. */
  function Name(c: string): string {
    c
  }

  /** `sorted(list(set(a) - set(b)))`: sorted, without duplicates, and exactly the names of `a` not in `b`. */
  function SortedDifference(a: seq<string>, b: seq<string>): (r: seq<string>)
    ensures SortedBy(r, Name) && NoDuplicates(r)
    ensures forall x :: x in r <==> x in a && x !in b
  {
    var d := Distinct(Without(a, b));
    var r := SortBy(d, Name);
    NoDuplicatesPermutation(d, r);
    assert forall x :: x in r <==> x in d by {
      forall x ensures x in r <==> x in d {
        assert x in r <==> x in multiset(r);
        assert x in d <==> x in multiset(d);
      }
    }
    r
  }

  /** The columns comparison of one file. */
  datatype Comparison = Comparison(missing: seq<string>, extra: seq<string>, matches: bool)

  /** Missing and extra names as sorted set differences; the header matches when both are empty. */
  function Compare(header: seq<string>, expected: seq<string>): (c: Comparison)
    ensures c.matches <==> forall x :: x in header <==> x in expected
  {
    var c := Comparison(SortedDifference(expected, header), SortedDifference(header, expected),
                        SortedDifference(expected, header) == [] && SortedDifference(header, expected) == []);
    assert c.matches <==> forall x :: x in header <==> x in expected by {
      if !c.matches {
        if c.missing != [] {
          assert c.missing[0] in c.missing;
        } else {
          assert c.extra[0] in c.extra;
        }
      }
    }
    c
  }

  /** How many of `rows` have a field count other than `width`. */
  function BadCount(rows: seq<seq<string>>, width: nat): (n: nat)
    ensures n <= |rows|
  {
    if rows == [] then 0
    else BadCount(rows[..|rows| - 1], width) + (if |rows[|rows| - 1]| != width then 1 else 0)
  }

  /** What sampling the data rows reports: rows counted, rows of the wrong width, and a reader error. */
  datatype Sampled = Sampled(checked: nat, bad: nat, error: Option<CsvError>)

  /**
   * The sampling loop's result in terms of all records after the header:
   * with more than `limit` records the loop stops at record `limit + 1`,
   * which is counted but never compared and hides any later reader error;
   * otherwise every record is counted and compared, and the reader's error,
   * if any, is reported.
   */
  function SampleOf(all: Records, width: nat, limit: int): (s: Sampled)
    ensures s.bad <= s.checked <= Max(limit, 0) + 1
    ensures s.checked <= |all.rows|
    ensures s.bad == BadCount(all.rows[..Min(|all.rows|, Max(limit, 0))], width)
    ensures s.error.Some? ==> all.error.Some? && s.checked == |all.rows|
  {
    var m := Max(limit, 0);
    if |all.rows| > m then Sampled(m + 1, BadCount(all.rows[..m], width), None)
    else
      assert all.rows[..|all.rows|] == all.rows;
      Sampled(|all.rows|, BadCount(all.rows, width), all.error)
  }

  lemma BadCountStep(rows: seq<seq<string>>, k: nat, width: nat)
    requires k < |rows|
    ensures BadCount(rows[..k + 1], width) == BadCount(rows[..k], width) + (if |rows[k]| != width then 1 else 0)
  {
    assert rows[..k + 1][..k] == rows[..k];
  }

  /** Reading one more record moves one step along the records still to come. */
  lemma RecordsStep(lines: seq<string>, pos: nat, all: Records, checked: nat, width: nat, row: seq<string>, next: nat)
    requires pos <= |lines| && ReadRecord(lines, pos) == Record(row, next)
    requires checked <= |all.rows| && RecordsFrom(lines, pos) == Records(all.rows[checked..], all.error)
    ensures pos < next <= |lines|
    ensures checked < |all.rows| && all.rows[checked] == row
    ensures RecordsFrom(lines, next) == Records(all.rows[checked + 1..], all.error)
    ensures BadCount(all.rows[..checked + 1], width) == BadCount(all.rows[..checked], width) + (if |row| != width then 1 else 0)
  {
    assert all.rows[checked..][1..] == all.rows[checked + 1..];
    BadCountStep(all.rows, checked, width);
  }

  /** When no record is left to read, every record has been counted. */
  lemma RecordsDrained(lines: seq<string>, pos: nat, all: Records, checked: nat)
    requires pos <= |lines| && !ReadRecord(lines, pos).Record?
    requires checked <= |all.rows| && RecordsFrom(lines, pos) == Records(all.rows[checked..], all.error)
    ensures checked == |all.rows|
    ensures ReadRecord(lines, pos).EndOfInput? ==> all.error.None?
    ensures ReadRecord(lines, pos).Error? ==> all.error == Some(ReadRecord(lines, pos).error)
  {
    assert |all.rows[checked..]| == 0;
  }

  /** The loop ends with every record counted. */
  lemma SampleAllRead(all: Records, checked: nat, bad: nat, width: nat, limit: int)
    requires checked == |all.rows| <= Max(limit, 0)
    requires bad == BadCount(all.rows[..checked], width)
    ensures Sampled(checked, bad, all.error) == SampleOf(all, width, limit)
  {
    assert all.rows[..checked] == all.rows;
  }

  /** The loop ends on the record after the first `limit`. */
  lemma SampleCutOff(all: Records, checked: nat, bad: nat, width: nat, limit: int)
    requires checked <= |all.rows| && checked == Max(limit, 0) + 1
    requires bad == BadCount(all.rows[..checked - 1], width)
    ensures Sampled(checked, bad, None) == SampleOf(all, width, limit)
  {
  }

  /**
   * The sampling loop of `audit_one_file`: read records after the header,
   * count each one, stop once the count exceeds `limit`, and count those
   * whose field count differs from `width`. A reader error ends the loop.
   */
  method SampleRows(lines: seq<string>, start: nat, width: nat, limit: int) returns (s: Sampled)
    requires start <= |lines|
    ensures s == SampleOf(RecordsFrom(lines, start), width, limit)
  {
    ghost var all := RecordsFrom(lines, start);
    var pos := start;
    var checked := 0;
    var bad := 0;
    while true
      invariant pos <= |lines|
      invariant checked <= |all.rows| && checked <= Max(limit, 0)
      invariant RecordsFrom(lines, pos) == Records(all.rows[checked..], all.error)
      invariant bad == BadCount(all.rows[..checked], width)
      decreases |lines| - pos
    {
      match ReadRecord(lines, pos)
      case EndOfInput =>
        RecordsDrained(lines, pos, all, checked);
        SampleAllRead(all, checked, bad, width, limit);
        return Sampled(checked, bad, None);
      case Error(e) =>
        RecordsDrained(lines, pos, all, checked);
        SampleAllRead(all, checked, bad, width, limit);
        return Sampled(checked, bad, Some(e));
      case Record(row, next) =>
        RecordsStep(lines, pos, all, checked, width, row, next);
        checked := checked + 1;
        if checked > limit {
          SampleCutOff(all, checked, bad, width, limit);
          return Sampled(checked, bad, None);
        }
        if |row| != width {
          bad := bad + 1;
        }
        pos := next;
    }
  }

  /** `sample_parse_error`: none, `EMPTY_OR_NO_HEADER`, or `CSV_ERROR: ...`. */
  datatype ParseProblem = NoProblem | EmptyOrNoHeader | CsvFailure(error: CsvError)

  /** One row of the audit report, less the file's key, year and size. */
  datatype AuditRow = AuditRow(
    headerColCount: nat,
    expectedColCount: nat,
    headerMatch: bool,
    missing: seq<string>,
    extra: seq<string>,
    checked: nat,
    bad: nat,
    problem: ParseProblem)

  /** The lines `io.StringIO(text)` yields to the reader. */
  function Lines(text: string): (lines: seq<string>) {
    SplitAfterNewlines(text)
  }

  /** The normalised header of the sampled text, empty when none could be read. */
  function HeaderOf(text: string): seq<string> {
    match ReadRecord(Lines(text), 0)
    case Record(fields, _) => NormalizeHeader(fields)
    case _ => []
  }

  /**
   * `audit_one_file` on the head of one object: read and normalise the
   * header record, sample up to `sampleRows` data rows, and compare the
   * header with `expected`. A header that cannot be read leaves the header
   * empty, so every expected name is missing.
   */
  method AuditOneFile(text: string, expected: seq<string>, sampleRows: int) returns (a: AuditRow)
    ensures a.headerColCount == |HeaderOf(text)| && a.expectedColCount == |expected|
    ensures forall x :: x in a.missing <==> x in expected && x !in HeaderOf(text)
    ensures forall x :: x in a.extra <==> x in HeaderOf(text) && x !in expected
    ensures SortedBy(a.missing, Name) && NoDuplicates(a.missing)
    ensures SortedBy(a.extra, Name) && NoDuplicates(a.extra)
    ensures a.headerMatch <==> a.missing == [] && a.extra == []
    ensures a.headerMatch <==> forall x :: x in HeaderOf(text) <==> x in expected
    ensures a.bad <= a.checked <= Max(sampleRows, 0) + 1
    ensures a.problem == EmptyOrNoHeader <==> ReadRecord(Lines(text), 0).EndOfInput?
    ensures !ReadRecord(Lines(text), 0).Record? ==> a.checked == 0 && a.bad == 0 && a.headerColCount == 0
    ensures ReadRecord(Lines(text), 0).Error? ==> a.problem == CsvFailure(ReadRecord(Lines(text), 0).error)
    ensures ReadRecord(Lines(text), 0).Record? ==>
              var s := SampleOf(RecordsFrom(Lines(text), ReadRecord(Lines(text), 0).next), a.headerColCount, sampleRows);
              && a.checked == s.checked && a.bad == s.bad
              && a.problem == if s.error.Some? then CsvFailure(s.error.value) else NoProblem
  {
    var lines := Lines(text);
    var header: seq<string> := [];
    var checked := 0;
    var bad := 0;
    var problem := NoProblem;
    match ReadRecord(lines, 0) {
      case EndOfInput =>
        problem := EmptyOrNoHeader;
      case Error(e) =>
        problem := CsvFailure(e);
      case Record(fields, next) =>
        header := NormalizeHeader(fields);
        var s := SampleRows(lines, next, |header|, sampleRows);
        checked := s.checked;
        bad := s.bad;
        if s.error.Some? {
          problem := CsvFailure(s.error.value);
        }
    }
    assert header == HeaderOf(text);
    var c := Compare(header, expected);
    a := AuditRow(|header|, |expected|, c.matches, c.missing, c.extra, checked, bad, problem);
  }

  /** Empty text has no header: the problem is `EMPTY_OR_NO_HEADER` and every expected name is missing. */
  lemma EmptyTextHasNoHeader()
    ensures ReadRecord(Lines(""), 0).EndOfInput?
    ensures HeaderOf("") == []
  {
  }
}
