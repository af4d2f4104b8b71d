# Economic calendar scraper — a Dafny model

The scraper in `Web-Scraping_base.py` does four things:
- it opens the economic calendar of investing.com in a browser;
- it scrolls until the page stops growing;
- it reads the calendar table out of the parsed HTML, building one record per event row: date, area, impact, indicator name, actual / forecast / previous values and a detail link;
- it writes the records to a spreadsheet.

This project models the parts of it that are logic and not plumbing:

- **The scroll loop** (`scroll_to_bottom`), in module `Scroll`.
  - The browser is a `Driver` object.
  - Its `heights` field lists the page heights its successive measurements return.
  - Its counters record how many measurements and scrolls have run.
  - `ScrollToBottom` is the source's `while` loop, with its invariants.
  - Its contract ties the number of rounds to `Rounds`, the position of the first repeated height.
- **The parsed page**, in module `Html`.
  - Tables, rows, cells, spans, anchors and impact markers are datatypes.
  - BeautifulSoup's `find("td", {'class': …})` is `FindCell`.
  - `FindCell` tests a multi-valued `class` attribute as BeautifulSoup does: a name matches one token or the space-joined attribute, and a `.*X.*` pattern matches when the joined attribute contains `X`.
- **One row of the calendar**, in module `Rows`.
  - It covers the event id `split("_")[1]`, the date attribute and the area (the flag's `title`).
  - It covers the indicator name (the anchor text without its first character) and the impact (markers sharing the first marker's class).
  - It covers the three value cells (the non-breaking-space "no data" text becomes `None`) and the link (base url + `href`).
  - Every lookup that can raise becomes an `Option`. A row where any lookup fails yields `None`, as the bare `except: pass` drops it.
- **The whole extraction** (`get_eco_calendar`), in module `Calendar`.
  - The first table whose `id` is `economicCalendarData` is located.
  - A missing table or a missing `<tbody>` is an explicit error.
  - The row loop keeps the records of the rows that extract, in order.
  - The base url is `url.rsplit('/', 2)[0]`.
- **Python's string operations** the scraper relies on, in module `Strings`: `split`, `rsplit` with a limit, and substring search.
- **The row loop's filtering**, in module `Filtering`. Its shape is "keep, in order, the results a partial function accepts", written once for any function.
- **A worked example**, in module `CalendarExample`: a day-separator row and one release row, whose record is derived field by field.

Line 111 counts every marker whose first class equals the first marker's, adjacent or not, so classes [A, B, A] give 2, where a count of the leading run would give 1 (`Rows.ImpactCountsNonAdjacent`). The code neither bounds the impact nor checks event ids for uniqueness, and the model does not either.

## Model

| member | source | states |
|---|---|---|
| Scroll.ScrollToBottom | Web-Scraping_base.py:55-72 | The loop measures once, then scrolls and measures again until a measurement equals the previous one. It makes exactly `Rounds` scrolls and one more measurement than scrolls. The heights the page reports are unchanged. |
| Scroll.Driver.MeasureHeight | Web-Scraping_base.py:69 | The measurement returns the next height of the page and advances the measurement count by one. |
| Scroll.Driver.ScrollToEnd | Web-Scraping_base.py:65 | Scrolling to the bottom advances the scroll count by one. |
| Scroll.Rounds | Web-Scraping_base.py:61-72 | The number of rounds is at least 1. The last measurement equals the one before it. No earlier measurement repeated its predecessor, so the loop stops at the first repeat. |
| Scroll.FixedPageOneRound | Web-Scraping_base.py:61-72 | A page whose height does not change stops after one round. |
| Scroll.ChangesThenHolds | Web-Scraping_base.py:61-72 | A page whose height changes on each of `n` scrolls and then holds takes `n + 1` rounds. |
| Scroll.GrowsThenHolds | Web-Scraping_base.py:61-72 | A page that grows on each of `n` scrolls and then stops growing takes `n + 1` rounds. |
| Strings.Split | Web-Scraping_base.py:102 | `str.split` always yields at least one piece. |
| Strings.SplitSeveral | Web-Scraping_base.py:102 | There is more than one piece exactly when the separator occurs. |
| Strings.SplitPiecesFree | Web-Scraping_base.py:102 | No piece contains the separator. |
| Strings.SplitJoin | Web-Scraping_base.py:102 | Joining the pieces with the separator gives the text back. |
| Strings.SecondPiece | Web-Scraping_base.py:102 | The second piece runs from just after the first separator to the next separator or the end. |
| Strings.RSplit | Web-Scraping_base.py:130 | `str.rsplit(sep, maxsplit)` yields between 1 and `maxsplit + 1` pieces. Only the first piece may hold the separator, and only when all cuts were used. Joining the pieces gives the text back. |
| Strings.ContainsIff | Web-Scraping_base.py:114 | The substring test behind a `.*X.*` search holds exactly when `X` occurs at some position. |
| Html.FindCell | Web-Scraping_base.py:106-118 | `find` returns nothing exactly when no cell matches. Otherwise it returns a matching cell with no matching cell before it. |
| Html.FindCellHit | Web-Scraping_base.py:106-118 | A matching first cell is the one found. |
| Html.FindCellSkip | Web-Scraping_base.py:106-118 | A non-matching first cell is passed over. |
| Html.TokenLikeMatches | Web-Scraping_base.py:114 | A cell matches a value-cell pattern when any one of its class tokens contains it, whatever other classes it carries. |
| Html.Matches | Web-Scraping_base.py:106-118 | A plain class name matches any cell carrying it among its classes. A name holding a space, such as `left flagCur noWrap`, matches a cell whose tokens hold no space exactly when the tokens joined by spaces, in order, are that string. A one-class cell matches a plain name exactly when its class is that name, and matches a `.*X.*` pattern exactly when its class contains `X`. |
| Html.Attr | Web-Scraping_base.py:102-106 | Subscripting a tag succeeds exactly when it has the attribute, and then gives its value. |
| Html.FindCellFirst | Web-Scraping_base.py:106-118 | `find` succeeds exactly when some cell is the first match, and then returns that cell. |
| Html.FindCellSkipFront | Web-Scraping_base.py:106-118 | Leading cells the filter does not match do not change what `find` returns. |
| Rows.EventId | Web-Scraping_base.py:102 | `tr['id'].split("_")[1]` exists exactly when the id holds an underscore. The event id itself holds none. |
| Rows.EventIdBetweenSeparators | Web-Scraping_base.py:102 | The event id is the text between the first underscore and the next underscore or the end. |
| Rows.EventIdOfTwoFields | Web-Scraping_base.py:102 | An id of the form `{head}_{event}` gives `event`. |
| Rows.FirstClass | Web-Scraping_base.py:111 | `i['class'][0]` exists exactly when the marker has a non-empty class list, and is its first token. |
| Rows.CountClass | Web-Scraping_base.py:111 | The count of a class never exceeds the number of markers. |
| Rows.Impact | Web-Scraping_base.py:110-111 | The impact exists exactly when every marker has a first class; otherwise the lookup raises and the row is dropped. It is 0 for no markers, and between 1 and the marker count otherwise. |
| Rows.CountClassIsMultiplicity | Web-Scraping_base.py:111 | Counting a class over the markers gives its multiplicity among the markers' first classes. |
| Rows.ImpactIsMultiplicity | Web-Scraping_base.py:111 | The impact is the multiplicity of the first marker's class, adjacent or not. |
| Rows.ImpactCountsNonAdjacent | Web-Scraping_base.py:111 | Classes [A, B, A] give impact 2, as do [A, A, B]. |
| Rows.CellValue | Web-Scraping_base.py:115 | A value is absent exactly when the cell text is the lone non-breaking space. Otherwise it is the text unchanged. |
| Rows.ExtractRow | Web-Scraping_base.py:99-121 | A row gives a record exactly when every lookup of the loop body succeeds. |
| Rows.ExtractedFields | Web-Scraping_base.py:102-119 | Each field of the record comes from its lookup. The date is the `data-event-datetime` attribute and the area is the flag span's `title`. The impact is the counted markers and the indicator is the anchor text without its first character. The link is the base url followed by the anchor's `href`, and each value is its cell's text, with "no data" as absent. |
| Rows.DropFirst | Web-Scraping_base.py:108 | `text[1:]` is one character shorter, or empty for empty text, and its characters are those of the text shifted by one. |
| Rows.ValueTextFromPatternCell | Web-Scraping_base.py:113-114 | A value text exists exactly when some cell is the first whose classes match `event-{id}-{kind}`, and it is that cell's text. |
| Rows.AreaFromFlagCell | Web-Scraping_base.py:106 | The area is the `title` of the span of the first flag cell. It is absent when there is no flag cell, no span or no `title`. |
| Rows.AnchorFromEventCell | Web-Scraping_base.py:108-118 | The anchor is that of the first event cell. It is absent when there is no event cell or it has no anchor. |
| Rows.ImpactFromSentimentCell | Web-Scraping_base.py:110-111 | The impact is counted over the markers of the first sentiment cell. It is absent when there is no sentiment cell. |
| Rows.RowWithoutEventIdDropped | Web-Scraping_base.py:99-102 | A row with no `id`, or an `id` without an underscore, yields no record. |
| Rows.RowWithoutValueCellDropped | Web-Scraping_base.py:113-121 | A row missing any one of its three value cells yields no record. |
| Filtering.FilterMap | Web-Scraping_base.py:97-121 | The loop keeps at most one result per element. |
| Filtering.FilterMapAppend | Web-Scraping_base.py:97-121 | Filtering a concatenation is the concatenation of the filtered parts. |
| Filtering.FilterMapStep | Web-Scraping_base.py:97-121 | One more element appends its result, if any, at the end. |
| Filtering.FilterMapIsOrderedSubsequence | Web-Scraping_base.py:97-121 | The output is the results at the accepted positions, in increasing position order. A position is kept exactly when its element is accepted. |
| Calendar.LocateTable | Web-Scraping_base.py:85-93 | The scan finds nothing exactly when no table carries the calendar id. Otherwise it returns the first such table, passing over tables without an `id`. |
| Calendar.FirstCalendarUnique | Web-Scraping_base.py:87-91 | The first calendar table is unique. |
| Calendar.CollectIsOrderedSubsequence | Web-Scraping_base.py:95-124 | The records are an ordered subsequence of the rows: one record per row that extracts, none for the others, at most as many records as rows. |
| Calendar.Collect | Web-Scraping_base.py:97-121 | The row loop produces at most one record per row. |
| Calendar.CollectStep | Web-Scraping_base.py:97-121 | Processing one more row appends its record, if it has one, at the end. |
| Calendar.ExtractRows | Web-Scraping_base.py:95-121 | The row loop's output is the collected records of all rows, in order. |
| Calendar.GetEcoCalendar | Web-Scraping_base.py:85-124 | The run fails with `TableNotFound` exactly when no table carries the calendar id. It fails with `NoTableBody` exactly when the first calendar table has no `<tbody>`. Otherwise it returns the records collected from that table's rows. |
| Calendar.BaseUrl | Web-Scraping_base.py:130 | The base url is the url without its last two `/`-separated segments. A url with fewer slashes loses only the segments it has. |
| Calendar.InvestingBaseUrl | Web-Scraping_base.py:128-130 | The entry point's url `https://uk.investing.com/economic-calendar/` gives the base `https://uk.investing.com`. |
| CalendarExample.ReleaseRecord | Web-Scraping_base.py:99-119 | A release row gives its record. The name loses its leading space, the impact of markers [A, B, A] is 2, the "no data" forecast is absent, and the link is the root plus the `href`. |
| CalendarExample.SeparatorAndRelease | Web-Scraping_base.py:95-121 | A day-separator row followed by a release row gives only the release's record. |

## Left out

- The browser session of `get_data` (Web-Scraping_base.py:12-53) is not modelled: Selenium, the cookie and popup buttons, the time-frame switch and the HTML parsing. The model starts from the parsed tables, given as values.
- `time.sleep` in the scroll loop and elsewhere is not modelled. The heights a page reports are a parameter of the `Driver`, standing for the page's reaction to scrolling.
- Scroll.ScrollToBottom: requires that some later measurement repeats its predecessor. On a page where no measurement ever equals the one before it, the source loops forever, and the model does not capture that run.
- The pandas `DataFrame` (lines 122-124) is replaced by a sequence of `Record`s with the same eight fields in the same column order. `to_excel` and the dated file name (lines 131-132) are not modelled.
- `np.nan` is modelled as `None`.
- `find` and `findAll` search all descendants; the model reads only the row's own cells.
  - The cells are the row's `<td>`s in document order.
  - Each cell carries its first `<span>`, its first `<a>` and all its `<i>` markers.
  - A `<td>` nested inside another cell is not modelled.
  - The rows of a table are the `<tr>`s of its first `<tbody>`, given in document order.
- The regular expression `.*event-{id}-{kind}.*` is modelled by its literal core, with every character of the event id read as itself. The `re` engine is not part of this model. This has two effects:
  - An id holding an unbalanced `(` or `[` makes `re.compile` raise at line 114, so the source drops the row; the model may keep it.
  - A `.` in the id matches any character in the source, but only itself in the model.
- Exceptions other than the lookups modelled as `Option` are not modelled (for example, a tag's text failing to decode).
- The impact is not bounded and event ids are not checked for uniqueness, because the code does neither.
