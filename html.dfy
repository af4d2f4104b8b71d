/** The parsed page, reduced to the parts the calendar extractor reads, and the
    subset of BeautifulSoup's `find` that it relies on. */
module Html {
  import opened Wrappers
  import opened Strings

  /** An element seen only through its attributes and its text (`span`, `a`). */
  datatype Element = Element(attrs: map<string, string>, text: string)

  /** An `<i>` impact marker: its `class` list, `None` when it has no `class` attribute. */
  datatype Marker = Marker(classes: Option<seq<string>>)

  /** A `<td>`: its class tokens, its text, its first `<span>` and first `<a>`
      descendant, and all of its `<i>` descendants in document order. */
  datatype Cell = Cell(
    classes: seq<string>,
    text: string,
    span: Option<Element>,
    anchor: Option<Element>,
    markers: seq<Marker>)

  /** A `<tr>`: its attributes and its `<td>` cells in document order. */
  datatype Row = Row(attrs: map<string, string>, cells: seq<Cell>)

  /** A `<table>`: its attributes and the `<tr>` rows of its first `<tbody>`,
      `None` when it has no `<tbody>`. */
  datatype Table = Table(attrs: map<string, string>, body: Option<seq<Row>>)

  /** Subscripting a tag, `tag[name]`: `None` where Python raises `KeyError`. */
  function Attr(attrs: map<string, string>, name: string): (r: Option<string>)
    ensures r.Some? <==> name in attrs
    ensures r.Some? ==> r.value == attrs[name]
  {
    if name in attrs then Some(attrs[name]) else None
  }

  /** The `class` filter of a `find("td", {'class': ...})` call: a plain string,
      or a regular expression of the shape `.*X.*`, given by its literal core `X`. */
  datatype ClassFilter = ClassIs(name: string) | ClassLike(core: string)

  /** BeautifulSoup's test of a multi-valued `class` attribute: a filter matches
      when it matches one token or the whole space-joined attribute. A `.*X.*`
      search matches exactly the strings containing `X`, and a token containing
      `X` makes the joined attribute contain it too (lemma `TokenLikeMatches`). */
  predicate Matches(filter: ClassFilter, classes: seq<string>): (b: bool)
    ensures filter.ClassIs? && filter.name in classes ==> b
    ensures filter.ClassIs? && |classes| == 1 ==> (b <==> classes[0] == filter.name)
    ensures filter.ClassLike? && |classes| == 1 ==> (b <==> Contains(classes[0], filter.core))
    ensures (filter.ClassIs? && ' ' in filter.name && forall t :: t in classes ==> ' ' !in t) ==>
              (b <==> Join(classes, ' ') == filter.name)
  {
    match filter
    case ClassIs(name) => name in classes || Join(classes, ' ') == name
    case ClassLike(core) => Contains(Join(classes, ' '), core)
  }

  /** A cell may carry other classes beside the one the pattern looks for. */
  lemma TokenLikeMatches(classes: seq<string>, k: nat, core: string)
    requires k < |classes| && Contains(classes[k], core)
    ensures Matches(ClassLike(core), classes)
  {
    JoinInfix(classes, ' ', k);
    var before, after :| Join(classes, ' ') == before + classes[k] + after;
    ContainsWithin(before, classes[k], after, core);
  }

  /** `row.find("td", {'class': filter})`: the first cell the filter matches. */
  function FindCell(cells: seq<Cell>, filter: ClassFilter): (r: Option<Cell>)
    ensures r.None? <==> forall i :: 0 <= i < |cells| ==> !Matches(filter, cells[i].classes)
    ensures r.Some? ==> exists i :: 0 <= i < |cells| && cells[i] == r.value && Matches(filter, cells[i].classes)
                          && forall j :: 0 <= j < i ==> !Matches(filter, cells[j].classes)
  {
    if |cells| == 0 then None
    else if Matches(filter, cells[0].classes) then Some(cells[0])
    else
      var r := FindCell(cells[1..], filter);
      assert r.Some? ==> exists i :: 1 <= i < |cells| && cells[i] == r.value && Matches(filter, cells[i].classes)
                           && forall j :: 0 <= j < i ==> !Matches(filter, cells[j].classes) by {
        if r.Some? {
          var i :| 0 <= i < |cells[1..]| && cells[1..][i] == r.value && Matches(filter, cells[1..][i].classes)
                   && forall j :: 0 <= j < i ==> !Matches(filter, cells[1..][j].classes);
          assert cells[i + 1] == r.value;
          forall j | 0 <= j < i + 1 ensures !Matches(filter, cells[j].classes) {
            if j > 0 { assert cells[j] == cells[1..][j - 1]; }
          }
        }
      }
      r
  }

  /** The cell at `i` is the first one the filter matches. */
  ghost predicate FirstMatch(cells: seq<Cell>, filter: ClassFilter, i: int)
  {
    0 <= i < |cells| && Matches(filter, cells[i].classes)
    && forall j :: 0 <= j < i ==> !Matches(filter, cells[j].classes)
  }

  /** `find` succeeds exactly when there is a first matching cell, and then returns it. */
  lemma FindCellFirst(cells: seq<Cell>, filter: ClassFilter)
    ensures FindCell(cells, filter).Some? <==> exists i :: FirstMatch(cells, filter, i)
    ensures forall i :: FirstMatch(cells, filter, i) ==> FindCell(cells, filter) == Some(cells[i])
  {
    var r := FindCell(cells, filter);
    if r.Some? {
      var k :| 0 <= k < |cells| && cells[k] == r.value && Matches(filter, cells[k].classes)
               && forall j :: 0 <= j < k ==> !Matches(filter, cells[j].classes);
      assert FirstMatch(cells, filter, k);
      forall i | FirstMatch(cells, filter, i) ensures r == Some(cells[i]) {
        assert !(i < k) && !(k < i);
      }
    }
  }

  /** A cell the filter matches at the front is the one found. */
  lemma FindCellHit(cells: seq<Cell>, filter: ClassFilter)
    requires |cells| > 0 && Matches(filter, cells[0].classes)
    ensures FindCell(cells, filter) == Some(cells[0])
  {
  }

  /** Cells the filter does not match at the front are passed over. */
  lemma {:induction false} FindCellSkipFront(front: seq<Cell>, rest: seq<Cell>, filter: ClassFilter)
    requires forall i :: 0 <= i < |front| ==> !Matches(filter, front[i].classes)
    ensures FindCell(front + rest, filter) == FindCell(rest, filter)
  {
    if |front| > 0 {
      FindCellSkip(front + rest, filter);
      assert (front + rest)[1..] == front[1..] + rest;
      FindCellSkipFront(front[1..], rest, filter);
    } else {
      assert front + rest == rest;
    }
  }

  /** A cell the filter does not match at the front is passed over. */
  lemma FindCellSkip(cells: seq<Cell>, filter: ClassFilter)
    requires |cells| > 0 && !Matches(filter, cells[0].classes)
    ensures FindCell(cells, filter) == FindCell(cells[1..], filter)
  {
  }

}
