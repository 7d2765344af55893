/**
 * The companion script that builds the totals table: collect company ids
 * page by page (`fetch_all_company_ids`), de-duplicate them keeping the first
 * occurrence, and turn each company's summary into one total per program
 * year (`extract_totals_by_year`), with a bounded retry around the request
 * (`fetch_company_totals_by_year`).
 */
module Totals {
  import opened Common
  import opened Text
  import opened Numbers
  import opened Unique

  /** A decoded JSON value; objects keep the last value of a repeated key, as `json.loads` does. */
  datatype Json =
    | JNull
    | JBool(b: bool)
    | JInt(i: int)
    | JStr(s: string)
    | JList(items: seq<Json>)
    | JObject(fields: map<string, Json>)

  /** `dict.get(key)`: the value, or `None` when the key is absent. */
  function Lookup(v: Json, key: string): Option<Json>
    requires v.JObject?
  {
    if key in v.fields then Some(v.fields[key]) else None
  }

  /** `str(v)` for a scalar; lists and objects have no rendering in this model. */
  function Str(v: Json): Option<string> {
    match v
    case JNull => Some("None")
    case JBool(b) => Some(if b then "True" else "False")
    case JInt(i) => Some(IntToString(i))
    case JStr(s) => Some(s)
    case _ => None
  }

  // ---------------------------------------------------------------------------
  // extract_totals_by_year
  // ---------------------------------------------------------------------------

  /** The output column of a program year: `total_<year>`. */
  function TotalKey(year: int): string {
    "total_" + IntToString(year)
  }

  /** Different years have different columns. */
  lemma TotalKeyInjective(a: int, b: int)
    requires TotalKey(a) == TotalKey(b)
    ensures a == b
  {
    assert TotalKey(a)[6..] == IntToString(a);
    assert TotalKey(b)[6..] == IntToString(b);
    IntToStringInjective(a, b);
  }

  type Totals = map<string, int>

  /** The column names of `years`. */
  function Columns(years: seq<int>): set<string> {
    set y | y in years :: TotalKey(y)
  }

  /** The columns of `years`, exactly. */
  predicate HasColumns(out: Totals, years: seq<int>) {
    out.Keys == Columns(years)
  }

  /** `{f"total_{y}": 0 for y in years}`. */
  function Zeros(years: seq<int>): (out: Totals)
    ensures HasColumns(out, years)
    ensures forall y :: y in years ==> out[TotalKey(y)] == 0
    decreases |years|
  {
    if years == [] then map[]
    else
      var rest := years[..|years| - 1];
      var y := years[|years| - 1];
      assert years == rest + [y];
      Zeros(rest)[TotalKey(y) := 0]
  }

  /** `int(str(programYear))`; `None` where the source skips the entry. */
  function YearOf(v: Json): Option<int> {
    if v == JNull then None
    else match Str(v)
      case Some(t) => ParseInt(t)
      case None => None
  }

  /** A numeric program year is read back as itself. */
  lemma YearOfInt(i: int)
    ensures YearOf(JInt(i)) == Some(i)
  {
    ParseIntOfIntToString(i);
  }

  /**
   * `int(gt) if gt is not None else 0`, with 0 where `int` raises: a
   * boolean counts as 0 or 1, a string must parse as an integer, and lists
   * and objects are refused.
   */
  function CountOf(gt: Option<Json>): int {
    match gt
    case None => 0
    case Some(JNull) => 0
    case Some(JBool(b)) => if b then 1 else 0
    case Some(JInt(i)) => i
    case Some(JStr(s)) => (match ParseInt(s) case Some(n) => n case None => 0)
    case Some(_) => 0
  }

  /** What one summary entry contributes: its program year, when it is one of `years`, and its count. */
  function Entry(row: Json, years: seq<int>): (e: Option<(int, int)>)
    ensures e.Some? ==> e.value.0 in years
  {
    if !row.JObject? then None
    else match Lookup(row, "programYear")
      case None => None
      case Some(py) =>
        match YearOf(py)
        case None => None
        case Some(y) => if y in years then Some((y, CountOf(Lookup(row, "generalTransactions")))) else None
  }

  /** An entry's year and count, or `None` where the loop `continue`s. */
  type Step = Option<(int, int)>

  /** What each summary entry contributes, in order. */
  function Entries(items: seq<Json>, years: seq<int>): (es: seq<Step>)
    ensures |es| == |items|
    ensures forall i :: 0 <= i < |items| ==> es[i] == Entry(items[i], years)
    ensures forall i :: 0 <= i < |es| && es[i].Some? ==> es[i].value.0 in years
  {
    seq(|items|, i requires 0 <= i < |items| => Entry(items[i], years))
  }

  /** The loop over the summary entries, from entry `i` on, updating `out` as it goes. */
  function Fold(es: seq<Step>, i: nat, out: Totals): Totals
    requires i <= |es|
    decreases |es| - i
  {
    if i == |es| then out
    else match es[i]
      case None => Fold(es, i + 1, out)
      case Some((y, n)) => Fold(es, i + 1, out[TotalKey(y) := n])
  }

  /** `extract_totals_by_year`. */
  function ExtractTotalsByYear(payload: Json, years: seq<int>): Totals {
    if !payload.JObject? then Zeros(years)
    else match Lookup(payload, "summaryByAvailableYear")
      case Some(JList(items)) => Fold(Entries(items, years), 0, Zeros(years))
      case _ => Zeros(years)
  }

  /** The summary entries when the payload has the expected shape. */
  function Summary(payload: Json): Option<seq<Json>> {
    if payload.JObject? && Lookup(payload, "summaryByAvailableYear").Some?
       && Lookup(payload, "summaryByAvailableYear").value.JList?
    then Some(Lookup(payload, "summaryByAvailableYear").value.items)
    else None
  }

  /** The count of the last entry for `year`, if any entry is for that year. */
  function LastCount(es: seq<Step>, year: int): Option<int> {
    if es == [] then None
    else
      var e := es[|es| - 1];
      if e.Some? && e.value.0 == year then Some(e.value.1)
      else LastCount(es[..|es| - 1], year)
  }

  /** Every entry's year has a column in `out`. */
  ghost predicate Covered(es: seq<Step>, out: Totals) {
    forall i :: 0 <= i < |es| && es[i].Some? ==> TotalKey(es[i].value.0) in out
  }

  /** Updating columns that already exist adds no column and removes none. */
  lemma {:induction false} FoldKeys(es: seq<Step>, i: nat, out: Totals)
    requires i <= |es| && Covered(es, out)
    ensures Fold(es, i, out).Keys == out.Keys
    decreases |es| - i
  {
    if i < |es| {
      match es[i]
      case None => FoldKeys(es, i + 1, out);
      case Some((y, n)) =>
        var next := out[TotalKey(y) := n];
        assert next.Keys == out.Keys;
        FoldKeys(es, i + 1, next);
    }
  }

  /** The last entry of `es[i..]` for `year` is the last one after `i`, or else entry `i` itself. */
  lemma {:induction false} LastCountSplit(es: seq<Step>, i: nat, year: int)
    requires i < |es|
    ensures LastCount(es[i..], year) ==
              match LastCount(es[i + 1..], year)
              case Some(n) => Some(n)
              case None => if es[i].Some? && es[i].value.0 == year then Some(es[i].value.1) else None
    decreases |es|
  {
    var s := es[i..];
    var rest := es[i + 1..];
    if rest == [] {
      assert s == [es[i]];
      assert s[..0] == [];
    } else {
      var n := |es| - 1;
      assert s[|s| - 1] == es[n] && rest[|rest| - 1] == es[n];
      var e := es[n];
      if !(e.Some? && e.value.0 == year) {
        var shorter := es[..n];
        assert s[..|s| - 1] == shorter[i..];
        assert rest[..|rest| - 1] == shorter[i + 1..];
        assert shorter[i] == es[i];
        LastCountSplit(shorter, i, year);
      }
    }
  }

  /** Writing another year's column leaves this year's column alone. */
  lemma OtherColumn(out: Totals, y: int, n: int, year: int)
    requires y != year && TotalKey(year) in out
    ensures TotalKey(year) in out[TotalKey(y) := n]
    ensures out[TotalKey(y) := n][TotalKey(year)] == out[TotalKey(year)]
  {
    if TotalKey(y) == TotalKey(year) {
      TotalKeyInjective(y, year);
    }
  }

  /**
   * Each column ends with the count of the LAST entry for its year, and
   * keeps its starting value when no entry is for that year.
   */
  lemma {:induction false} FoldValue(es: seq<Step>, i: nat, out: Totals, year: int)
    requires i <= |es| && TotalKey(year) in out
    ensures TotalKey(year) in Fold(es, i, out)
    ensures Fold(es, i, out)[TotalKey(year)] ==
              match LastCount(es[i..], year) case Some(n) => n case None => out[TotalKey(year)]
    decreases |es| - i
  {
    if i == |es| {
      assert es[i..] == [];
    } else {
      LastCountSplit(es, i, year);
      match es[i]
      case None => FoldValue(es, i + 1, out, year);
      case Some((y, n)) =>
        var next := out[TotalKey(y) := n];
        if y != year {
          OtherColumn(out, y, n, year);
        }
        FoldValue(es, i + 1, next, year);
    }
  }

  /**
   * The columns are exactly `total_<y>` for the requested years. A payload
   * that is not an object, or whose summary is not a list, gives all zeros;
   * otherwise each column holds the count of the last summary entry for its
   * year, or 0 when there is none.
   */
  lemma ExtractTotals(payload: Json, years: seq<int>)
    ensures HasColumns(ExtractTotalsByYear(payload, years), years)
    ensures Summary(payload).None? ==> ExtractTotalsByYear(payload, years) == Zeros(years)
    ensures Summary(payload).Some? ==>
              forall y :: y in years ==>
                ExtractTotalsByYear(payload, years)[TotalKey(y)] ==
                  match LastCount(Entries(Summary(payload).value, years), y) case Some(n) => n case None => 0
  {
    if Summary(payload).Some? {
      var es := Entries(Summary(payload).value, years);
      var zero := Zeros(years);
      assert ExtractTotalsByYear(payload, years) == Fold(es, 0, zero);
      FoldResult(es, years, zero);
    }
  }

  /** The fold over entries of `years`, started from the zero columns. */
  lemma FoldResult(es: seq<Step>, years: seq<int>, zero: Totals)
    requires zero == Zeros(years)
    requires forall i :: 0 <= i < |es| && es[i].Some? ==> es[i].value.0 in years
    ensures HasColumns(Fold(es, 0, zero), years)
    ensures forall y :: y in years ==>
              Fold(es, 0, zero)[TotalKey(y)] == match LastCount(es, y) case Some(n) => n case None => 0
  {
    assert es[0..] == es;
    FoldKeys(es, 0, zero);
    forall y | y in years
      ensures Fold(es, 0, zero)[TotalKey(y)] == match LastCount(es, y) case Some(n) => n case None => 0
    {
      FoldValue(es, 0, zero, y);
    }
  }

  /** A later entry for the same year overwrites an earlier one. */
  lemma LaterEntryWins(first: Json, second: Json, years: seq<int>, year: int)
    requires Entry(first, years).Some? && Entry(second, years).Some?
    requires Entry(first, years).value.0 == year && Entry(second, years).value.0 == year
    ensures LastCount(Entries([first, second], years), year) == Some(Entry(second, years).value.1)
  {
    var es := Entries([first, second], years);
    assert es[1] == Entry(second, years);
  }

  // ---------------------------------------------------------------------------
  // fetch_company_totals_by_year
  // ---------------------------------------------------------------------------

  /** One request for a company's summary: an exception with its message, or the decoded body. */
  datatype Attempt = Failed(message: string) | Received(payload: Json)

  /** The function's result: the totals, the error message if any, and how many requests were made. */
  datatype Fetched = Fetched(totals: Totals, error: Option<string>, requests: nat)

  /** Attempts `k`, `k + 1`, ... of `for attempt in range(1, maxRetries + 1)`, with `attempts(k - 1)` the k-th. */
  function TryFrom(attempts: nat -> Attempt, years: seq<int>, maxRetries: int, k: nat): (r: Fetched)
    requires 1 <= k <= maxRetries
    ensures k <= r.requests <= maxRetries
    decreases maxRetries - k
  {
    match attempts(k - 1)
    case Received(payload) => Fetched(ExtractTotalsByYear(payload, years), None, k)
    case Failed(message) =>
      if k >= maxRetries then Fetched(Zeros(years), Some(message), k)
      else TryFrom(attempts, years, maxRetries, k + 1)
  }

  /** `fetch_company_totals_by_year`; with no attempt allowed the loop never runs and the error is `Unknown error`. */
  function FetchCompanyTotals(attempts: nat -> Attempt, years: seq<int>, maxRetries: int): (r: Fetched)
    ensures r.requests <= Max(maxRetries, 0)
  {
    if maxRetries < 1 then Fetched(Zeros(years), Some("Unknown error"), 0)
    else TryFrom(attempts, years, maxRetries, 1)
  }

  /** The first of the first `n` attempts that received a body. */
  function FirstReceived(attempts: nat -> Attempt, n: nat): (r: Option<nat>)
    ensures r.Some? ==> r.value < n && attempts(r.value).Received?
    ensures r.Some? ==> forall j :: 0 <= j < r.value ==> attempts(j).Failed?
    ensures r.None? ==> forall j :: 0 <= j < n ==> attempts(j).Failed?
  {
    if n == 0 then None
    else
      var r := FirstReceived(attempts, n - 1);
      if r.Some? then r else if attempts(n - 1).Received? then Some(n - 1) else None
  }

  /** A received body ends the loop with its totals. */
  lemma TryFromReceived(attempts: nat -> Attempt, years: seq<int>, maxRetries: int, k: nat)
    requires 1 <= k <= maxRetries && attempts(k - 1).Received?
    ensures TryFrom(attempts, years, maxRetries, k) == Fetched(ExtractTotalsByYear(attempts(k - 1).payload, years), None, k)
  {
  }

  /** A failure on the last allowed attempt ends the loop with zeros and its message. */
  lemma TryFromLast(attempts: nat -> Attempt, years: seq<int>, maxRetries: int, k: nat)
    requires 1 <= k == maxRetries && attempts(k - 1).Failed?
    ensures TryFrom(attempts, years, maxRetries, k) == Fetched(Zeros(years), Some(attempts(k - 1).message), k)
  {
    assert attempts(k - 1) == Failed(attempts(k - 1).message);
  }

  /** An earlier failure goes on to the next attempt. */
  lemma TryFromNext(attempts: nat -> Attempt, years: seq<int>, maxRetries: int, k: nat)
    requires 1 <= k < maxRetries && attempts(k - 1).Failed?
    ensures TryFrom(attempts, years, maxRetries, k) == TryFrom(attempts, years, maxRetries, k + 1)
  {
  }

  /** Attempt `k` onwards, when all earlier attempts failed, yield the first received body or the last failure. */
  lemma {:induction false} TryFromOutcome(attempts: nat -> Attempt, years: seq<int>, maxRetries: int, k: nat)
    requires 1 <= k <= maxRetries
    requires forall j :: 0 <= j < k - 1 ==> attempts(j).Failed?
    ensures var r := TryFrom(attempts, years, maxRetries, k);
            match FirstReceived(attempts, maxRetries)
            case Some(j) =>
              r == Fetched(ExtractTotalsByYear(attempts(j).payload, years), None, j + 1)
            case None =>
              r == Fetched(Zeros(years), Some(attempts(maxRetries - 1).message), maxRetries)
    decreases maxRetries - k
  {
    var first := FirstReceived(attempts, maxRetries);
    if attempts(k - 1).Received? {
      TryFromReceived(attempts, years, maxRetries, k);
      assert first == Some(k - 1);
    } else if k == maxRetries {
      TryFromLast(attempts, years, maxRetries, k);
      assert first == None;
    } else {
      TryFromNext(attempts, years, maxRetries, k);
      TryFromOutcome(attempts, years, maxRetries, k + 1);
    }
  }

  /**
   * At most `maxRetries` requests are made. The first request that gets a
   * body ends the loop with its totals and no error; when all of them fail,
   * every year is 0 and the error is the last failure's message.
   */
  lemma FetchOutcome(attempts: nat -> Attempt, years: seq<int>, maxRetries: int)
    ensures var r := FetchCompanyTotals(attempts, years, maxRetries);
            maxRetries < 1 ==> r == Fetched(Zeros(years), Some("Unknown error"), 0)
    ensures var r := FetchCompanyTotals(attempts, years, maxRetries);
            maxRetries >= 1 ==>
              match FirstReceived(attempts, maxRetries)
              case Some(j) =>
                r == Fetched(ExtractTotalsByYear(attempts(j).payload, years), None, j + 1)
              case None =>
                r == Fetched(Zeros(years), Some(attempts(maxRetries - 1).message), maxRetries)
  {
    if maxRetries >= 1 {
      TryFromOutcome(attempts, years, maxRetries, 1);
    }
  }

  /** Every result has exactly the requested columns, and an error means all zeros. */
  lemma FetchColumns(attempts: nat -> Attempt, years: seq<int>, maxRetries: int)
    ensures HasColumns(FetchCompanyTotals(attempts, years, maxRetries).totals, years)
    ensures FetchCompanyTotals(attempts, years, maxRetries).error.Some? ==>
              FetchCompanyTotals(attempts, years, maxRetries).totals == Zeros(years)
  {
    FetchOutcome(attempts, years, maxRetries);
    var j := FirstReceived(attempts, if maxRetries < 1 then 0 else maxRetries);
    if maxRetries >= 1 && j.Some? {
      ExtractTotals(attempts(j.value).payload, years);
    }
  }

  // ---------------------------------------------------------------------------
  // fetch_all_company_ids
  // ---------------------------------------------------------------------------

  /** The datastore's answer to one page request: an exception, or the decoded body. */
  datatype Reply = Raised(message: string) | Body(data: Json)

  /** The datastore, as the reply it gives for each `offset`. */
  type Query = int -> Reply

  /** How the loop treats one reply: stop, take the page's entries, or fail with an exception. */
  datatype PageView = Done | Items(items: seq<Json>) | Broken(message: string)

  /** Python truthiness of a JSON value. */
  predicate Truthy(v: Json) {
    match v
    case JNull => false
    case JBool(b) => b
    case JInt(i) => i != 0
    case JStr(s) => s != []
    case JList(items) => items != []
    case JObject(fields) => fields != map[]
  }

  /**
   * `data.get("results", []) or []`, checked with `if not results`, then
   * iterated calling `item.get`: a body that is not an object, results that
   * are truthy but not a list, or an entry that is not an object raise.
   */
  function View(reply: Reply): (p: PageView)
    ensures p.Items? ==> p.items != [] && forall i :: 0 <= i < |p.items| ==> p.items[i].JObject?
  {
    match reply
    case Raised(m) => Broken(m)
    case Body(data) =>
      if !data.JObject? then Broken("AttributeError")
      else match Lookup(data, "results")
        case None => Done
        case Some(results) =>
          if !Truthy(results) then Done
          else if !results.JList? then Broken(if results.JStr? || results.JObject? then "AttributeError" else "TypeError")
          else if exists i :: 0 <= i < |results.items| && !results.items[i].JObject? then Broken("AttributeError")
          else Items(results.items)
  }

  /** The key holding a company's id. */
  const ID_KEY: string := "amgpo_making_payment_id"

  /**
   * `str(item[ID_KEY])`. The rendering of a list or object id (Python's
   * `repr` of it) is the parameter `repr`.
   */
  function IdText(v: Json, repr: Json -> string): string {
    match Str(v)
    case Some(s) => s
    case None => repr(v)
  }

  /** The ids of one page, in order, skipping entries whose id is absent or null. */
  function BatchIds(items: seq<Json>, repr: Json -> string): (ids: seq<string>)
    requires forall i :: 0 <= i < |items| ==> items[i].JObject?
    ensures |ids| <= |items|
  {
    if items == [] then []
    else
      var item := items[0];
      var rest := BatchIds(items[1..], repr);
      match Lookup(item, ID_KEY)
      case Some(v) => if v == JNull then rest else [IdText(v, repr)] + rest
      case None => rest
  }

  /** Every entry with a non-null id contributes its rendering, and nothing else is added. */
  lemma {:induction false} BatchIdsMembers(items: seq<Json>, repr: Json -> string, s: string)
    requires forall i :: 0 <= i < |items| ==> items[i].JObject?
    ensures s in BatchIds(items, repr) <==>
              exists i :: 0 <= i < |items| && ID_KEY in items[i].fields && items[i].fields[ID_KEY] != JNull
                          && IdText(items[i].fields[ID_KEY], repr) == s
  {
    if items != [] {
      var rest := items[1..];
      BatchIdsMembers(rest, repr, s);
      forall i | 0 <= i < |rest| ensures rest[i] == items[i + 1] {}
      if s in BatchIds(items, repr) && s !in BatchIds(rest, repr) {
        assert ID_KEY in items[0].fields && items[0].fields[ID_KEY] != JNull && IdText(items[0].fields[ID_KEY], repr) == s;
      }
      if s !in BatchIds(items, repr) {
        forall i | 0 <= i < |items| && ID_KEY in items[i].fields && items[i].fields[ID_KEY] != JNull
          ensures IdText(items[i].fields[ID_KEY], repr) != s
        {
          if i > 0 {
            assert items[i] == rest[i - 1];
          }
        }
      }
    }
  }

  /** How the id collection ends: all ids gathered, an exception, or the fuel bound reached. */
  datatype Collected = Ids(ids: seq<string>) | Failure(message: string) | OutOfFuel

  /**
   * The `while True` loop of `fetch_all_company_ids` from `offset` on, with
   * the ids gathered so far in `acc`; each page request advances the offset
   * by `limit`. The loop has no bound in the source; `fuel` caps the number
   * of requests.
   */
  function Collect(query: Query, limit: int, offset: int, fuel: nat, acc: seq<string>, repr: Json -> string): Collected
    decreases fuel
  {
    if fuel == 0 then OutOfFuel
    else match View(query(offset))
      case Done => Ids(acc)
      case Broken(m) => Failure(m)
      case Items(items) => Collect(query, limit, offset + limit, fuel - 1, acc + BatchIds(items, repr), repr)
  }

  /** The view of the `j`-th page request, made at offset `offset + j * limit`. */
  function PageAt(query: Query, limit: int, offset: int, j: nat): PageView {
    View(query(offset + j * limit))
  }

  /** The first `n` page requests all return entries. */
  ghost predicate PagesOk(query: Query, limit: int, offset: int, n: nat) {
    forall j :: 0 <= j < n ==> PageAt(query, limit, offset, j).Items?
  }

  /** The ids of the first `n` pages, in page order: the reference for the whole loop. */
  function Gathered(query: Query, limit: int, offset: int, n: nat, repr: Json -> string): seq<string>
    decreases n
  {
    if n == 0 then []
    else match PageAt(query, limit, offset, 0)
      case Items(items) => BatchIds(items, repr) + Gathered(query, limit, offset + limit, n - 1, repr)
      case _ => []
  }

  /** Page `j + 1` from `offset` is page `j` from the next offset. */
  lemma PageAtNext(query: Query, limit: int, offset: int, j: nat)
    ensures PageAt(query, limit, offset + limit, j) == PageAt(query, limit, offset, j + 1)
  {
    assert offset + limit + j * limit == offset + (j + 1) * limit;
  }

  /** The next offset's first `n` pages are this offset's pages 1 to `n`. */
  lemma PagesOkNext(query: Query, limit: int, offset: int, n: nat)
    requires PagesOk(query, limit, offset, n + 1)
    ensures PagesOk(query, limit, offset + limit, n)
  {
    var next := offset + limit;
    forall j | 0 <= j < n ensures PageAt(query, limit, next, j).Items? {
      PageAtNext(query, limit, offset, j);
    }
  }

  /**
   * When the first `n` pages hold entries and page `n` is empty, the loop
   * returns every id of those pages in order, provided the fuel allows the
   * `n + 1` requests.
   */
  lemma {:induction false} CollectStops(query: Query, limit: int, offset: int, n: nat, fuel: nat, acc: seq<string>, repr: Json -> string)
    requires PagesOk(query, limit, offset, n) && PageAt(query, limit, offset, n).Done? && n < fuel
    ensures Collect(query, limit, offset, fuel, acc, repr) == Ids(acc + Gathered(query, limit, offset, n, repr))
    decreases n
  {
    if n == 0 {
      assert query(offset + 0 * limit) == query(offset);
    } else {
      assert PageAt(query, limit, offset, 0).Items?;
      var items := PageAt(query, limit, offset, 0).items;
      assert View(query(offset)) == Items(items) by {
        assert offset + 0 * limit == offset;
      }
      PagesOkNext(query, limit, offset, n - 1);
      PageAtNext(query, limit, offset, n - 1);
      CollectStops(query, limit, offset + limit, n - 1, fuel - 1, acc + BatchIds(items, repr), repr);
      assert acc + BatchIds(items, repr) + Gathered(query, limit, offset + limit, n - 1, repr)
          == acc + Gathered(query, limit, offset, n, repr);
    }
  }

  /** When the first `n` pages hold entries and request `n` raises, the loop raises with that exception. */
  lemma {:induction false} CollectFails(query: Query, limit: int, offset: int, n: nat, fuel: nat, acc: seq<string>, repr: Json -> string)
    requires PagesOk(query, limit, offset, n) && PageAt(query, limit, offset, n).Broken? && n < fuel
    ensures Collect(query, limit, offset, fuel, acc, repr) == Failure(PageAt(query, limit, offset, n).message)
    decreases n
  {
    if n == 0 {
      assert query(offset + 0 * limit) == query(offset);
    } else {
      assert PageAt(query, limit, offset, 0).Items?;
      assert offset + 0 * limit == offset;
      var items := View(query(offset)).items;
      PagesOkNext(query, limit, offset, n - 1);
      PageAtNext(query, limit, offset, n - 1);
      CollectFails(query, limit, offset + limit, n - 1, fuel - 1, acc + BatchIds(items, repr), repr);
    }
  }

  /** When every request the fuel allows returns entries, the loop has not ended. */
  lemma {:induction false} CollectRunsOut(query: Query, limit: int, offset: int, fuel: nat, acc: seq<string>, repr: Json -> string)
    requires PagesOk(query, limit, offset, fuel)
    ensures Collect(query, limit, offset, fuel, acc, repr) == OutOfFuel
    decreases fuel
  {
    if fuel > 0 {
      assert PageAt(query, limit, offset, 0).Items?;
      assert offset + 0 * limit == offset;
      var items := View(query(offset)).items;
      PagesOkNext(query, limit, offset, fuel - 1);
      CollectRunsOut(query, limit, offset + limit, fuel - 1, acc + BatchIds(items, repr), repr);
    }
  }

  /**
   * The de-duplication loop at the end of `fetch_all_company_ids`: the first
   * occurrence of each id, in the order ids first occur.
   */
  method DedupeIds(ids: seq<string>) returns (deduped: seq<string>)
    ensures deduped == Distinct(ids)
    ensures NoDuplicates(deduped) && forall s :: s in deduped <==> s in ids
  {
    var seen: set<string> := {};
    deduped := [];
    var i := 0;
    while i < |ids|
      invariant 0 <= i <= |ids|
      invariant deduped == Distinct(ids[..i])
      invariant forall s :: s in seen <==> s in ids[..i]
    {
      var cid := ids[i];
      assert ids[..i + 1] == ids[..i] + [cid];
      if cid !in seen {
        seen := seen + {cid};
        deduped := deduped + [cid];
      }
      i := i + 1;
    }
    assert ids[..i] == ids;
  }

  /**
   * `fetch_all_company_ids`: when the first `n` pages hold entries and page
   * `n` has none, the ids of those pages in page order, de-duplicated; when
   * request `n` raises, that exception; and the fuel bound when every
   * request it allows returned entries.
   */
  method FetchAllCompanyIds(query: Query, limit: int, fuel: nat, repr: Json -> string) returns (r: Collected)
    ensures forall n: nat :: n < fuel && PagesOk(query, limit, 0, n) && PageAt(query, limit, 0, n).Done? ==>
              r == Ids(Distinct(Gathered(query, limit, 0, n, repr)))
    ensures forall n: nat :: n < fuel && PagesOk(query, limit, 0, n) && PageAt(query, limit, 0, n).Broken? ==>
              r == Failure(PageAt(query, limit, 0, n).message)
    ensures PagesOk(query, limit, 0, fuel) ==> r == OutOfFuel
  {
    var all := Collect(query, limit, 0, fuel, [], repr);
    if all.Ids? {
      var deduped := DedupeIds(all.ids);
      r := Ids(deduped);
    } else {
      r := all;
    }
    forall n: nat | n < fuel && PagesOk(query, limit, 0, n) && PageAt(query, limit, 0, n).Done?
      ensures r == Ids(Distinct(Gathered(query, limit, 0, n, repr)))
    {
      CollectStops(query, limit, 0, n, fuel, [], repr);
      assert [] + Gathered(query, limit, 0, n, repr) == Gathered(query, limit, 0, n, repr);
    }
    forall n: nat | n < fuel && PagesOk(query, limit, 0, n) && PageAt(query, limit, 0, n).Broken?
      ensures r == Failure(PageAt(query, limit, 0, n).message)
    {
      CollectFails(query, limit, 0, n, fuel, [], repr);
    }
    if PagesOk(query, limit, 0, fuel) {
      CollectRunsOut(query, limit, 0, fuel, [], repr);
    }
  }
}
