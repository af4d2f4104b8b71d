/** `get_eco_calendar` and the base-url expression of the entry point: locate the
    calendar table, run the row loop, and collect the surviving records in order. */
module Calendar {
  import opened Wrappers
  import opened Strings
  import opened Html
  import opened Rows
  import opened Filtering

  /** The `id` of the table that holds the calendar. */
  const CalendarTableId := "economicCalendarData"

  /** Why a run aborts: no table has the calendar id (`eco_table` is never bound),
      or the calendar table has no `<tbody>` (`find("tbody")` returns `None`). */
  datatype CalendarError = TableNotFound | NoTableBody

  /** The table at `i` carries the calendar id. */
  predicate IsCalendar(tables: seq<Table>, i: int)
  {
    0 <= i < |tables| && Attr(tables[i].attrs, "id") == Some(CalendarTableId)
  }

  /** The table at `i` is the first one carrying the calendar id. */
  predicate FirstCalendar(tables: seq<Table>, i: int)
  {
    IsCalendar(tables, i) && forall j :: 0 <= j < i ==> !IsCalendar(tables, j)
  }

  /** The table scan: the first table whose `id` is the calendar id. A table with
      no `id` raises `KeyError`, which the scan swallows and moves past. */
  method LocateTable(tables: seq<Table>) returns (eco: Option<Table>)
    ensures eco.None? <==> forall j :: 0 <= j < |tables| ==> !IsCalendar(tables, j)
    ensures eco.Some? ==> exists i :: FirstCalendar(tables, i) && tables[i] == eco.value
  {
    eco := None;
    for i := 0 to |tables|
      invariant forall j :: 0 <= j < i ==> !IsCalendar(tables, j)
    {
      var id := Attr(tables[i].attrs, "id");
      if id == Some(CalendarTableId) {
        eco := Some(tables[i]);
        assert FirstCalendar(tables, i);
        return;
      }
    }
  }

  /** The row loop's body as a partial function of the row. */
  function Extractor(base: string): Row -> Option<Record>
  {
    row => ExtractRow(base, row)
  }

  /** The records of `rows` that survive extraction, in row order. */
  function Collect(base: string, rows: seq<Row>): (recs: seq<Record>)
    ensures |recs| <= |rows|
  {
    FilterMap(Extractor(base), rows)
  }

  /** The output is a subsequence of the rows: one record for each row that
      extracts, at most one per row, in the rows' order, and nothing for the rest. */
  lemma CollectIsOrderedSubsequence(base: string, rows: seq<Row>)
    ensures |Collect(base, rows)| <= |rows|
    ensures var kept := KeptFrom(Extractor(base), rows, 0);
            && |kept| == |Collect(base, rows)|
            && (forall k :: 0 <= k < |kept| ==> kept[k] < |rows| && ExtractRow(base, rows[kept[k]]) == Some(Collect(base, rows)[k]))
            && (forall k, l :: 0 <= k < l < |kept| ==> kept[k] < kept[l])
            && (forall j :: 0 <= j < |rows| ==> (j in kept <==> ExtractRow(base, rows[j]).Some?))
  {
    FilterMapIsOrderedSubsequence(Extractor(base), rows);
  }

  /** One more row adds its record, if it has one, at the end. */
  lemma CollectStep(base: string, trs: seq<Row>, i: nat)
    requires i < |trs|
    ensures var rec := ExtractRow(base, trs[i]);
            Collect(base, trs[..i + 1]) == Collect(base, trs[..i]) + (if rec.Some? then [rec.value] else [])
  {
    FilterMapStep(Extractor(base), trs, i);
  }

  /** The row loop: every `<tr>` in order, appending the record of each row that extracts. */
  method ExtractRows(base: string, trs: seq<Row>) returns (caracs: seq<Record>)
    ensures caracs == Collect(base, trs)
  {
    caracs := [];
    for i := 0 to |trs|
      invariant caracs == Collect(base, trs[..i])
    {
      var rec := ExtractRow(base, trs[i]);
      CollectStep(base, trs, i);
      if rec.Some? {
        caracs := caracs + [rec.value];
      }
    }
    assert trs[..|trs|] == trs;
  }

  /** `get_eco_calendar`: the records of the first calendar table's body, or the
      error that aborts the run. */
  method GetEcoCalendar(base: string, tables: seq<Table>) returns (result: Result<seq<Record>, CalendarError>)
    ensures result == Failure(TableNotFound) <==> forall j :: 0 <= j < |tables| ==> !IsCalendar(tables, j)
    ensures result == Failure(NoTableBody) <==> exists i :: FirstCalendar(tables, i) && tables[i].body.None?
    ensures result.Success? ==>
              exists i :: FirstCalendar(tables, i) && tables[i].body.Some?
                            && result.value == Collect(base, tables[i].body.value)
  {
    var eco := LocateTable(tables);
    if eco.None? {
      return Failure(TableNotFound);
    }
    ghost var i :| FirstCalendar(tables, i) && tables[i] == eco.value;
    FirstCalendarUnique(tables, i);
    if eco.value.body.None? {
      return Failure(NoTableBody);
    }
    var caracs := ExtractRows(base, eco.value.body.value);
    result := Success(caracs);
  }

  /** There is at most one first calendar table. */
  lemma FirstCalendarUnique(tables: seq<Table>, i: int)
    requires FirstCalendar(tables, i)
    ensures forall j :: FirstCalendar(tables, j) ==> j == i
  {
  }

  /** `url.rsplit('/', 2)[0]`: the url with its last two `/`-separated segments
      cut off; a url with fewer slashes loses only what it has. */
  function BaseUrl(url: string): (base: string)
    ensures || (exists mid, last :: '/' !in mid && '/' !in last && url == base + "/" + mid + "/" + last)
            || (exists last :: '/' !in base && '/' !in last && url == base + "/" + last)
            || ('/' !in url && base == url)
  {
    var parts := RSplit(url, '/', 2);
    if |parts| == 3 then
      assert parts[1..][1..] == [parts[2]];
      assert url == parts[0] + "/" + parts[1] + "/" + parts[2];
      parts[0]
    else if |parts| == 2 then
      assert parts[1..] == [parts[1]];
      assert url == parts[0] + "/" + parts[1];
      parts[0]
    else
      parts[0]
  }

  /** The entry point's url gives the site root. */
  lemma InvestingBaseUrl()
    ensures BaseUrl("https://uk.investing.com/economic-calendar/") == "https://uk.investing.com"
  {
    var url := "https://uk.investing.com/economic-calendar/";
    var page := "https://uk.investing.com/economic-calendar";
    var root := "https://uk.investing.com";
    assert url == page + "/";
    assert LastIndexOf(url, '/') == |page|;
    assert page == root + "/economic-calendar";
    assert forall j :: |root| < j < |page| ==> page[j] != '/';
    assert page[|root|] == '/';
    var cut := LastIndexOf(page, '/');
    assert cut >= |root|;
    assert cut == |root|;
    assert url[..|page|] == page && page[..|root|] == root;
    assert RSplit(page, '/', 1) == [root] + [page[|root| + 1..]];
  }
}
