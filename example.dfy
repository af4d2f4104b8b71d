/** A worked calendar: a simplified day-separator row followed by a simplified
    release row, run through the row loop. */
module CalendarExample {
  import opened Wrappers
  import opened Strings
  import opened Html
  import opened Rows
  import opened Filtering
  import opened Calendar

  const Base := "https://uk.investing.com"
  const FlagCell := Cell(["left", "flagCur", "noWrap"], "", Some(Element(map["title" := "Euro Zone"], "")), None, [])
  const Markers := [Marker(Some(["grayFullBullishIcon"])), Marker(Some(["grayEmptyBullishIcon"])),
                    Marker(Some(["grayFullBullishIcon"]))]
  const SentimentCell := Cell(["left", "textNum", "sentiment", "noWrap"], "", None, None, Markers)
  const Href := "/economic-calendar/cpi-68"
  const Anchor := Element(map["href" := Href], " CPI (YoY)")
  const EventCell := Cell(["left", "event"], "", None, Some(Anchor), [])
  const ActualCell := Cell(["event-123-actual"], "2.9%", None, None, [])
  const ForecastCell := Cell(["event-123-forecast"], NoData, None, None, [])
  const PreviousCell := Cell(["event-123-previous"], "2.4%", None, None, [])
  const Cells := [ActualCell, ForecastCell, PreviousCell, FlagCell, SentimentCell, EventCell]
  const Release := Row(map["id" := "eventRowId_123", "data-event-datetime" := "2024/01/05 10:00:00"], Cells)
  const Separator := Row(map[], [Cell(["theDay"], "Friday, January 5, 2024", None, None, [])])
  const Expected := Record("2024/01/05 10:00:00", "Euro Zone", 2, "CPI (YoY)", Some("2.9%"), None, Some("2.4%"),
                           Base + Href)

  lemma ReleaseEventId()
    ensures EventId(Release.attrs["id"]) == Some("123")
  {
    assert Release.attrs["id"] == "eventRowId" + "_" + "123";
    EventIdOfTwoFields("eventRowId", "123");
  }

  lemma PatternsOfRelease()
    ensures ValuePattern("123", Actual) == "event-123-actual"
    ensures ValuePattern("123", Forecast) == "event-123-forecast"
    ensures ValuePattern("123", Previous) == "event-123-previous"
  {
  }

  /** Each value cell is matched by its own pattern and by no later one. */
  lemma ActualPatternCells()
    ensures Matches(ClassLike("event-123-actual"), ActualCell.classes)
  {
  }

  lemma ForecastPatternCells()
    ensures !Matches(ClassLike("event-123-forecast"), ActualCell.classes)
    ensures Matches(ClassLike("event-123-forecast"), ForecastCell.classes)
  {
    ContainsNoShorter("event-123-actual", "event-123-forecast");
  }

  lemma PreviousPatternCells()
    ensures !Matches(ClassLike("event-123-previous"), ActualCell.classes)
    ensures !Matches(ClassLike("event-123-previous"), ForecastCell.classes)
    ensures Matches(ClassLike("event-123-previous"), PreviousCell.classes)
  {
    ContainsNoShorter("event-123-actual", "event-123-previous");
    ContainsNoShorter("event-123-forecast", "event-123-previous");
  }

  lemma ReleaseActual()
    ensures RowValueText(Release, "123", Actual) == Some("2.9%")
  {
    PatternsOfRelease();
    ActualPatternCells();
    FindCellHit(Cells, ClassLike("event-123-actual"));
  }

  lemma ReleaseForecast()
    ensures RowValueText(Release, "123", Forecast) == Some(NoData)
  {
    var filter := ClassLike("event-123-forecast");
    PatternsOfRelease();
    ForecastPatternCells();
    assert Cells[1..][0] == ForecastCell;
    FindCellSkip(Cells, filter);
    FindCellHit(Cells[1..], filter);
  }

  lemma ReleasePrevious()
    ensures RowValueText(Release, "123", Previous) == Some("2.4%")
  {
    var filter := ClassLike("event-123-previous");
    PatternsOfRelease();
    PreviousPatternCells();
    assert Cells[1..][0] == ForecastCell && Cells[1..][1..][0] == PreviousCell;
    FindCellSkip(Cells, filter);
    FindCellSkip(Cells[1..], filter);
    FindCellHit(Cells[1..][1..], filter);
  }

  /** A value cell carries one class token without a space, so no class name
      holding a space matches it. */
  lemma ValueCellUnnamed(cell: Cell, name: string)
    requires cell == ActualCell || cell == ForecastCell || cell == PreviousCell
    requires ' ' in name
    ensures !Matches(ClassIs(name), cell.classes)
  {
    var token := cell.classes[0];
    assert cell.classes == [token] && ' ' !in token;
  }

  /** The named cells' class lists, joined, are the fixed filters. */
  lemma FlagCellClasses()
    ensures Join(FlagCell.classes, ' ') == FlagClass
  {
  }

  lemma SentimentCellClasses()
    ensures Join(SentimentCell.classes, ' ') == SentimentClass
  {
  }

  lemma EventCellClasses()
    ensures Join(EventCell.classes, ' ') == EventClass
  {
  }

  lemma ValueCellsLead()
    ensures Cells == [ActualCell, ForecastCell, PreviousCell] + Cells[3..]
  {
  }

  /** The value cells come first, and no fixed class filter stops on them. */
  lemma NamedCellsFollowValues(name: string)
    requires ' ' in name
    ensures FindCell(Cells, ClassIs(name)) == FindCell(Cells[3..], ClassIs(name))
  {
    var front := [ActualCell, ForecastCell, PreviousCell];
    forall i | 0 <= i < |front| ensures !Matches(ClassIs(name), front[i].classes) {
      ValueCellUnnamed(front[i], name);
    }
    ValueCellsLead();
    FindCellSkipFront(front, Cells[3..], ClassIs(name));
  }

  /** No fixed class filter matches a named cell other than its own. */
  lemma NamedCellsDistinct()
    ensures !Matches(ClassIs(SentimentClass), FlagCell.classes)
    ensures !Matches(ClassIs(EventClass), FlagCell.classes)
    ensures !Matches(ClassIs(EventClass), SentimentCell.classes)
  {
    FlagCellClasses();
    SentimentCellClasses();
  }

  lemma ReleaseArea()
    ensures RowArea(Release) == Some("Euro Zone")
  {
    assert FlagClass[4] == ' ';
    NamedCellsFollowValues(FlagClass);
    FlagCellClasses();
    assert Cells[3..][0] == FlagCell;
    FindCellHit(Cells[3..], ClassIs(FlagClass));
  }

  /** The sentiment lookup stops on the sentiment cell. */
  lemma SentimentFound()
    ensures FindCell(Cells, ClassIs(SentimentClass)) == Some(SentimentCell)
  {
    var filter := ClassIs(SentimentClass);
    assert SentimentClass[4] == ' ';
    NamedCellsFollowValues(SentimentClass);
    NamedCellsDistinct();
    SentimentCellClasses();
    assert Cells[3..][0] == FlagCell && Cells[3..][1..][0] == SentimentCell;
    FindCellSkip(Cells[3..], filter);
    FindCellHit(Cells[3..][1..], filter);
  }

  lemma ReleaseImpact()
    ensures RowImpact(Release) == Some(2)
  {
    SentimentFound();
    ImpactCountsNonAdjacent("grayFullBullishIcon", "grayEmptyBullishIcon");
  }

  lemma ReleaseAnchor()
    ensures RowAnchor(Release) == Some(Anchor)
  {
    var filter := ClassIs(EventClass);
    assert EventClass[4] == ' ';
    NamedCellsFollowValues(EventClass);
    NamedCellsDistinct();
    EventCellClasses();
    assert Cells[3..][0] == FlagCell && Cells[3..][1..][0] == SentimentCell;
    assert Cells[3..][1..][1..][0] == EventCell;
    FindCellSkip(Cells[3..], filter);
    FindCellSkip(Cells[3..][1..], filter);
    FindCellHit(Cells[3..][1..][1..], filter);
  }

  lemma ReleaseRecord()
    ensures ExtractRow(Base, Release) == Some(Expected)
  {
    ReleaseEventId();
    ReleaseActual();
    ReleaseForecast();
    ReleasePrevious();
    ReleaseArea();
    ReleaseImpact();
    ReleaseAnchor();
    assert Complete(Release);
    ExtractedFields(Base, Release);
    var rec := ExtractRow(Base, Release).value;
    assert rec.date == "2024/01/05 10:00:00";
    assert rec.area == "Euro Zone" && rec.impact == 2;
    assert rec.indicator == "CPI (YoY)" by {
      assert DropFirst(Anchor.text) == "CPI (YoY)";
    }
    assert rec.link == Base + Href;
    assert rec.actual == Some("2.9%") && rec.forecast == None && rec.previous == Some("2.4%") by {
      assert CellValue("2.9%") == Some("2.9%") && CellValue("2.4%") == Some("2.4%");
    }
    assert rec == Expected;
  }

  lemma SeparatorDropped()
    ensures ExtractRow(Base, Separator) == None
  {
  }

  /** A row that yields `rec` contributes exactly `[rec]`. */
  lemma KeptAlone(base: string, row: Row, rec: Record)
    requires ExtractRow(base, row) == Some(rec)
    ensures Collect(base, [row]) == [rec]
  {
    FilterMapSingle(Extractor(base), row);
  }

  /** A row that is dropped contributes nothing. */
  lemma DroppedAlone(base: string, row: Row)
    requires ExtractRow(base, row) == None
    ensures Collect(base, [row]) == []
  {
    FilterMapSingle(Extractor(base), row);
  }

  lemma ReleaseCollected()
    ensures Collect(Base, [Release]) == [Expected]
  {
    ReleaseRecord();
    KeptAlone(Base, Release, Expected);
  }

  lemma SeparatorCollected()
    ensures Collect(Base, [Separator]) == []
  {
    SeparatorDropped();
    DroppedAlone(Base, Separator);
  }

  /** The separator is dropped, and the release gives the record its cells
      describe: the name without its leading character, impact 2 from markers
      [A, B, A], no forecast for the lone non-breaking space, and the link under
      the site root. */
  lemma SeparatorAndRelease()
    ensures Collect(Base, [Separator, Release]) == [Expected]
  {
    ReleaseCollected();
    SeparatorCollected();
    FilterMapPair(Extractor(Base), Separator, Release);
  }
}
