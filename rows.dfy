/** One `<tr>` of the economic calendar turned into one record, or dropped. */
module Rows {
  import opened Wrappers
  import opened Strings
  import opened Html

  /** Class attribute of the cell holding the area flag. */
  const FlagClass := "left flagCur noWrap"
  /** Class attribute of the cell holding the indicator anchor. */
  const EventClass := "left event"
  /** Class attribute of the cell holding the impact markers. */
  const SentimentClass := "left textNum sentiment noWrap"
  /** The text of a value cell that has no data: a lone non-breaking space. */
  const NoData: string := "\U{00A0}"

  /** The three value columns, in the order the row loop reads them. */
  datatype Kind = Actual | Forecast | Previous

  function KindName(kind: Kind): string
  {
    match kind
    case Actual => "actual"
    case Forecast => "forecast"
    case Previous => "previous"
  }

  /** The literal core of the regular expression `.*event-{id}-{kind}.*`. */
  function ValuePattern(eventId: string, kind: Kind): string
  {
    "event-" + eventId + "-" + KindName(kind)
  }

  /** One output line: Date, Area, Impact, Indicator, Actual, Forecast, Previous, Link. */
  datatype Record = Record(
    date: string,
    area: string,
    impact: nat,
    indicator: string,
    actual: Option<string>,
    forecast: Option<string>,
    previous: Option<string>,
    link: string)

  /** `rowId.split("_")[1]`; `None` where the index raises `IndexError`. */
  function EventId(rowId: string): (r: Option<string>)
    ensures r.Some? <==> '_' in rowId
    ensures r.Some? ==> '_' !in r.value
  {
    var parts := Split(rowId, '_');
    SplitSeveral(rowId, '_');
    SplitPiecesFree(rowId, '_');
    if |parts| < 2 then None else Some(parts[1])
  }

  /** `s` is `head`, an underscore, `id`, then either nothing or another underscore and more,
      with no underscore in `head`. */
  ghost predicate SecondField(s: string, head: string, id: string, tail: string)
  {
    s == head + "_" + id + tail && '_' !in head && (tail == "" || tail[0] == '_')
  }

  /** The event id is the text between the first `_` and the next one (or the end). */
  lemma EventIdBetweenSeparators(rowId: string)
    requires '_' in rowId
    ensures exists head, tail :: SecondField(rowId, head, EventId(rowId).value, tail)
  {
    SecondPiece(rowId, '_');
    CutAtSeparators(rowId, EventId(rowId).value);
  }

  /** Text following the first underscore, up to the next one, is a second field. */
  lemma CutAtSeparators(s: string, id: string)
    requires '_' in s
    requires var rest := s[IndexOf(s, '_') + 1..]; id == rest[..IndexOf(rest, '_')]
    ensures exists head, tail :: SecondField(s, head, id, tail)
  {
    var i := IndexOf(s, '_');
    assert i < |s| by {
      var k :| 0 <= k < |s| && s[k] == '_';
    }
    var rest := s[i + 1..];
    Around(s, i, rest, IndexOf(rest, '_'), id);
  }

  /** The pieces of `s` around the underscore at `i` and the next `j` characters. */
  lemma Around(s: string, i: nat, rest: string, j: nat, id: string)
    requires i < |s| && s[i] == '_' && forall k :: 0 <= k < i ==> s[k] != '_'
    requires rest == s[i + 1..] && j <= |rest| && (j == |rest| || rest[j] == '_') && id == rest[..j]
    ensures exists head, tail :: SecondField(s, head, id, tail)
  {
    assert s == s[..i] + [s[i]] + rest;
    assert rest == id + rest[j..];
    assert SecondField(s, s[..i], id, rest[j..]);
  }

  /** An id built as `{head}_{event}`, with no other underscore, yields `event`. */
  lemma EventIdOfTwoFields(head: string, event: string)
    requires '_' !in head && '_' !in event
    ensures EventId(head + "_" + event) == Some(event)
  {
    var s := head + "_" + event;
    assert s[|head|] == '_';
    assert IndexOf(s, '_') == |head|;
    assert s[..|head|] == head && s[|head| + 1..] == event;
    SecondPiece(s, '_');
    assert Split(event, '_') == [event];
  }

  /** `marker["class"][0]`; `None` where the lookup or the index raises. */
  function FirstClass(m: Marker): (r: Option<string>)
    ensures r.Some? <==> m.classes.Some? && |m.classes.value| > 0
    ensures r.Some? ==> r.value == m.classes.value[0]
  {
    match m.classes
    case None => None
    case Some(cs) => if |cs| == 0 then None else Some(cs[0])
  }

  /** Every marker has a first class token, so the comprehension raises nothing. */
  predicate AllClassed(markers: seq<Marker>)
  {
    forall i :: 0 <= i < |markers| ==> FirstClass(markers[i]).Some?
  }

  /** How many markers have `c` as their first class token. */
  function CountClass(markers: seq<Marker>, c: string): (n: nat)
    ensures n <= |markers|
  {
    if |markers| == 0 then 0
    else (if FirstClass(markers[0]) == Some(c) then 1 else 0) + CountClass(markers[1..], c)
  }

  /** The impact: markers whose first class equals the first marker's, wherever they stand. */
  function Impact(markers: seq<Marker>): (r: Option<nat>)
    ensures r.Some? <==> AllClassed(markers)
    ensures |markers| == 0 ==> r == Some(0)
    ensures r.Some? && |markers| > 0 ==> 1 <= r.value <= |markers|
  {
    if !AllClassed(markers) then None
    else if |markers| == 0 then Some(0)
    else Some(CountClass(markers, FirstClass(markers[0]).value))
  }

  /** The first class tokens of markers that all have one. */
  function FirstClasses(markers: seq<Marker>): (cs: seq<string>)
    requires AllClassed(markers)
    ensures |cs| == |markers|
    ensures forall i :: 0 <= i < |markers| ==> FirstClass(markers[i]) == Some(cs[i])
  {
    seq(|markers|, i requires 0 <= i < |markers| => FirstClass(markers[i]).value)
  }

  /** Counting a class is taking its multiplicity among the first class tokens. */
  lemma {:induction false} CountClassIsMultiplicity(markers: seq<Marker>, c: string)
    requires AllClassed(markers)
    ensures CountClass(markers, c) == multiset(FirstClasses(markers))[c]
  {
    if |markers| > 0 {
      CountClassIsMultiplicity(markers[1..], c);
      assert FirstClasses(markers) == [FirstClasses(markers)[0]] + FirstClasses(markers[1..]);
    }
  }

  /** The impact is the multiplicity of the first marker's class, adjacent or not. */
  lemma ImpactIsMultiplicity(markers: seq<Marker>)
    requires AllClassed(markers) && |markers| > 0
    ensures Impact(markers) == Some(multiset(FirstClasses(markers))[FirstClasses(markers)[0]])
  {
    CountClassIsMultiplicity(markers, FirstClasses(markers)[0]);
  }

  /** Classes [A, B, A] give impact 2 and [A, A, B] give 2 as well. */
  lemma ImpactCountsNonAdjacent(a: string, b: string)
    requires a != b
    ensures Impact([Marker(Some([a])), Marker(Some([b])), Marker(Some([a]))]) == Some(2)
    ensures Impact([Marker(Some([a])), Marker(Some([a])), Marker(Some([b]))]) == Some(2)
  {
    var aba := [Marker(Some([a])), Marker(Some([b])), Marker(Some([a]))];
    var aab := [Marker(Some([a])), Marker(Some([a])), Marker(Some([b]))];
    assert aba[1..][1..] == [Marker(Some([a]))];
    assert CountClass(aba[1..][1..], a) == 1;
    assert CountClass(aba[1..], a) == 1;
    assert aab[1..][1..] == [Marker(Some([b]))];
    assert CountClass(aab[1..][1..], a) == 0;
    assert CountClass(aab[1..], a) == 1;
  }

  /** `np.nan if text == '\xa0' else text`, with `None` for NaN. */
  function CellValue(text: string): (r: Option<string>)
    ensures r.None? <==> text == NoData
    ensures r.Some? ==> r.value == text
  {
    if text == NoData then None else Some(text)
  }

  /** Python's `text[1:]`: the empty string stays empty. */
  function DropFirst(s: string): (r: string)
    ensures |r| == if |s| == 0 then 0 else |s| - 1
    ensures forall i :: 0 <= i < |r| ==> r[i] == s[i + 1]
  {
    if |s| == 0 then "" else s[1..]
  }

  /** The area: the `title` of the first `<span>` in the first flag cell. */
  function RowArea(row: Row): Option<string>
  {
    var flag :- FindCell(row.cells, ClassIs(FlagClass));
    var span :- flag.span;
    Attr(span.attrs, "title")
  }

  /** The anchor of the first event cell, read for both the name and the link. */
  function RowAnchor(row: Row): Option<Element>
  {
    var cell :- FindCell(row.cells, ClassIs(EventClass));
    cell.anchor
  }

  /** The impact markers of the first sentiment cell, counted. */
  function RowImpact(row: Row): Option<nat>
  {
    var cell :- FindCell(row.cells, ClassIs(SentimentClass));
    Impact(cell.markers)
  }

  /** The raw text of the first cell whose class contains `event-{id}-{kind}`. */
  function RowValueText(row: Row, eventId: string, kind: Kind): Option<string>
  {
    var cell :- FindCell(row.cells, ClassLike(ValuePattern(eventId, kind)));
    Some(cell.text)
  }

  /** Every lookup the row loop makes on `row` succeeds. */
  predicate Complete(row: Row)
  {
    && "id" in row.attrs && '_' in row.attrs["id"]
    && "data-event-datetime" in row.attrs
    && RowArea(row).Some?
    && RowAnchor(row).Some? && "href" in RowAnchor(row).value.attrs
    && RowImpact(row).Some?
    && var id := EventId(row.attrs["id"]).value;
       RowValueText(row, id, Actual).Some? && RowValueText(row, id, Forecast).Some?
       && RowValueText(row, id, Previous).Some?
  }

  /** The body of the row loop: the record of one `<tr>`, or `None` where any
      lookup raises and the bare `except` drops the row. */
  function ExtractRow(base: string, row: Row): (r: Option<Record>)
    ensures r.Some? <==> Complete(row)
  {
    var rowId :- Attr(row.attrs, "id");
    var eventId :- EventId(rowId);
    var date :- Attr(row.attrs, "data-event-datetime");
    var area :- RowArea(row);
    var anchor :- RowAnchor(row);
    var impact :- RowImpact(row);
    var actual :- RowValueText(row, eventId, Actual);
    var forecast :- RowValueText(row, eventId, Forecast);
    var previous :- RowValueText(row, eventId, Previous);
    var href :- Attr(anchor.attrs, "href");
    Some(Record(date, area, impact, DropFirst(anchor.text),
                CellValue(actual), CellValue(forecast), CellValue(previous), base + href))
  }

  /** Each field of an extracted record comes from the lookup that reads it:
      the date attribute, the flag's title, the counted markers, the anchor's
      text without its first character, the anchor's href under the base url,
      and the three value cells with the "no data" text mapped to `None`. */
  lemma ExtractedFields(base: string, row: Row)
    requires ExtractRow(base, row).Some?
    ensures var rec := ExtractRow(base, row).value;
            var id := EventId(row.attrs["id"]).value;
            && rec.date == row.attrs["data-event-datetime"]
            && Some(rec.area) == RowArea(row)
            && Some(rec.impact) == RowImpact(row)
            && rec.indicator == DropFirst(RowAnchor(row).value.text)
            && rec.link == base + RowAnchor(row).value.attrs["href"]
            && rec.actual == CellValue(RowValueText(row, id, Actual).value)
            && rec.forecast == CellValue(RowValueText(row, id, Forecast).value)
            && rec.previous == CellValue(RowValueText(row, id, Previous).value)
  {
  }

  /** A value text is the text of the first cell whose class list contains the
      `event-{id}-{kind}` pattern, possibly among other classes; with no such
      cell the lookup fails. */
  lemma ValueTextFromPatternCell(row: Row, eventId: string, kind: Kind)
    ensures var filter := ClassLike(ValuePattern(eventId, kind));
            && (RowValueText(row, eventId, kind).Some? <==> exists i :: FirstMatch(row.cells, filter, i))
            && forall i :: FirstMatch(row.cells, filter, i) ==> RowValueText(row, eventId, kind) == Some(row.cells[i].text)
  {
    FindCellFirst(row.cells, ClassLike(ValuePattern(eventId, kind)));
  }

  /** The area is the `title` of the span in the first flag cell; the lookup
      fails when there is no flag cell, or it has no span, or the span no title. */
  lemma AreaFromFlagCell(row: Row)
    ensures var filter := ClassIs(FlagClass);
            && ((forall i :: !FirstMatch(row.cells, filter, i)) ==> RowArea(row) == None)
            && forall i :: FirstMatch(row.cells, filter, i) ==>
                 RowArea(row) == (if row.cells[i].span.Some? then Attr(row.cells[i].span.value.attrs, "title") else None)
  {
    FindCellFirst(row.cells, ClassIs(FlagClass));
  }

  /** The anchor is that of the first event cell; the lookup fails when there
      is no event cell or it has no anchor. */
  lemma AnchorFromEventCell(row: Row)
    ensures var filter := ClassIs(EventClass);
            && ((forall i :: !FirstMatch(row.cells, filter, i)) ==> RowAnchor(row) == None)
            && forall i :: FirstMatch(row.cells, filter, i) ==> RowAnchor(row) == row.cells[i].anchor
  {
    FindCellFirst(row.cells, ClassIs(EventClass));
  }

  /** The impact counts the markers of the first sentiment cell; the lookup
      fails when there is no sentiment cell. */
  lemma ImpactFromSentimentCell(row: Row)
    ensures var filter := ClassIs(SentimentClass);
            && ((forall i :: !FirstMatch(row.cells, filter, i)) ==> RowImpact(row) == None)
            && forall i :: FirstMatch(row.cells, filter, i) ==> RowImpact(row) == Impact(row.cells[i].markers)
  {
    FindCellFirst(row.cells, ClassIs(SentimentClass));
  }

  /** A row without an `id`, or whose `id` has no `_`, yields no record
      (section separators and headers are dropped). */
  lemma RowWithoutEventIdDropped(base: string, row: Row)
    requires "id" !in row.attrs || '_' !in row.attrs["id"]
    ensures ExtractRow(base, row) == None
  {
  }

  /** A row missing any one of its three value cells yields no record. */
  lemma RowWithoutValueCellDropped(base: string, row: Row, kind: Kind)
    requires "id" in row.attrs && '_' in row.attrs["id"]
    requires forall i :: 0 <= i < |row.cells| ==>
               !Matches(ClassLike(ValuePattern(EventId(row.attrs["id"]).value, kind)), row.cells[i].classes)
    ensures ExtractRow(base, row) == None
  {
    assert RowValueText(row, EventId(row.attrs["id"]).value, kind).None?;
  }
}
