/** The search box and the clear button, row by row: column resolution, the
    per-row search with its two modes, and the reset to plain text. */
module Search {
  import opened Text
  import opened CellMarkup

  datatype Option<T> = None | Some(value: T)

  /** The column selectors of the search drop-down, in column order. */
  const ColumnSelectors: seq<string> := ["drawing", "building", "unit", "area", "tag",
    "component", "subtype", "floor", "regulation", "chemical", "description"]

  /** `getColumnIndex`: the eleven selectors map one-to-one onto the column
      indices 0 to 10, and every other selector resolves to nothing. */
  function ColumnIndex(selector: string): (r: Option<nat>)
    ensures r.Some? <==> selector in ColumnSelectors
    ensures r.Some? ==> r.value < |ColumnSelectors| && ColumnSelectors[r.value] == selector
  {
    match selector
    case "drawing" => Some(0)
    case "building" => Some(1)
    case "unit" => Some(2)
    case "area" => Some(3)
    case "tag" => Some(4)
    case "component" => Some(5)
    case "subtype" => Some(6)
    case "floor" => Some(7)
    case "regulation" => Some(8)
    case "chemical" => Some(9)
    case "description" => Some(10)
    case _ => None
  }

  /** The first four selectors' columns. */
  lemma ColumnIndexLeading()
    ensures && ColumnIndex("drawing") == Some(0) && ColumnIndex("building") == Some(1)
            && ColumnIndex("unit") == Some(2) && ColumnIndex("area") == Some(3)
  {
  }

  /** The middle three selectors' columns. */
  lemma ColumnIndexMiddle()
    ensures && ColumnIndex("tag") == Some(4) && ColumnIndex("component") == Some(5)
            && ColumnIndex("subtype") == Some(6)
  {
  }

  /** The last four selectors' columns. */
  lemma ColumnIndexTrailing()
    ensures && ColumnIndex("floor") == Some(7) && ColumnIndex("regulation") == Some(8)
            && ColumnIndex("chemical") == Some(9) && ColumnIndex("description") == Some(10)
  {
  }

  /** Distinct selectors resolve to distinct columns. */
  lemma ColumnIndexInjective(a: string, b: string)
    requires ColumnIndex(a).Some? && ColumnIndex(b).Some?
    requires ColumnIndex(a) == ColumnIndex(b)
    ensures a == b
  {
  }

  /** A table row: the content of each cell and whether it is displayed. */
  datatype RowView = RowView(cells: seq<CellContent>, visible: bool)

  /** `lowerText.includes(searchTerm)` for a non-empty term. */
  predicate CellMatches(text: string, term: string)
  {
    term != "" && Contains(Lower(text), term)
  }

  /** A cell the search examines, afterwards: highlighted if it matches, plain text
      otherwise. */
  function SearchCell(text: string, term: string): CellContent
  {
    if CellMatches(text, term) then Highlight(text, term) else PlainCell(text)
  }

  /** The cell a column search tests: `cells[getColumnIndex(selector)]`,
      when that cell exists. */
  function TargetCell(row: RowView, selector: string): (r: Option<nat>)
    ensures r.Some? <==> ColumnIndex(selector).Some? && ColumnIndex(selector).value < |row.cells|
    ensures r.Some? ==> r.value == ColumnIndex(selector).value && ColumnSelectors[r.value] == selector
    ensures r.Some? ==> r.value < |row.cells|
  {
    match ColumnIndex(selector)
    case Some(k) => if k < |row.cells| then Some(k) else None
    case None => None
  }

  /** The selector picks the cells to test: all of them, or one that exists. */
  predicate Resolves(row: RowView, selector: string)
  {
    selector == "all" || TargetCell(row, selector).Some?
  }

  /** One row after a keystroke in the search box, for the lower-case term.
      In "all" mode every cell is re-derived from its text; in column mode
      every cell is reset to plain text and only the target is examined; with
      no target cell nothing is touched. */
  function Searched(row: RowView, term: string, selector: string): RowView
  {
    if selector == "all" then
      RowView(seq(|row.cells|, j requires 0 <= j < |row.cells| => SearchCell(TextOf(row.cells[j]), term)),
              term == "" || exists j :: 0 <= j < |row.cells| && CellMatches(TextOf(row.cells[j]), term))
    else match TargetCell(row, selector)
      case Some(k) =>
        RowView(seq(|row.cells|, j requires 0 <= j < |row.cells| =>
                  if j == k then SearchCell(TextOf(row.cells[k]), term) else PlainCell(TextOf(row.cells[j]))),
                term == "" || CellMatches(TextOf(row.cells[k]), term))
      case None => RowView(row.cells, term == "")
  }

  /** One row after the clear button: plain text everywhere, displayed. */
  function Cleared(row: RowView): RowView
  {
    RowView(seq(|row.cells|, j requires 0 <= j < |row.cells| => PlainCell(TextOf(row.cells[j]))), true)
  }

  /** Row visibility, mode by mode: an empty term shows every row; otherwise
      in "all" mode a row shows iff some cell's lower-cased text contains the
      term, in column mode iff the target cell's does, and with no target
      cell never. */
  lemma SearchVisibility(row: RowView, term: string, selector: string)
    ensures var r := Searched(row, term, selector);
      && (term == "" ==> r.visible)
      && (term != "" && selector == "all" ==>
            (r.visible <==> exists j :: 0 <= j < |row.cells| && Contains(Lower(TextOf(row.cells[j])), term)))
      && (term != "" && selector != "all" && TargetCell(row, selector).Some? ==>
            (r.visible <==> Contains(Lower(TextOf(row.cells[TargetCell(row, selector).value])), term)))
      && (term != "" && !Resolves(row, selector) ==> !r.visible)
  {
  }

  /** How each mode resets cells: in "all" mode a cell is highlighted iff it
      matches and is plain text otherwise; in column mode every cell but the
      target is plain text and the target is highlighted iff it matches; with
      no target cell every cell stays as it was. */
  lemma SearchResetRules(row: RowView, term: string, selector: string)
    ensures var r := Searched(row, term, selector);
      && |r.cells| == |row.cells|
      && (selector == "all" ==> forall j :: 0 <= j < |row.cells| ==>
            if CellMatches(TextOf(row.cells[j]), term) then HasMark(r.cells[j])
            else r.cells[j] == PlainCell(TextOf(row.cells[j])))
      && (selector != "all" && TargetCell(row, selector).Some? ==>
            var k := TargetCell(row, selector).value;
            && (forall j :: 0 <= j < |row.cells| && j != k ==> r.cells[j] == PlainCell(TextOf(row.cells[j])))
            && (HasMark(r.cells[k]) <==> CellMatches(TextOf(row.cells[k]), term)))
      && (!Resolves(row, selector) ==> r.cells == row.cells)
  {
    var r := Searched(row, term, selector);
    forall j | 0 <= j < |row.cells| && CellMatches(TextOf(row.cells[j]), term)
      ensures HasMark(Highlight(TextOf(row.cells[j]), term))
    {
      HighlightMarksIffContains(TextOf(row.cells[j]), term);
    }
    if selector != "all" && TargetCell(row, selector).Some? {
      var k := TargetCell(row, selector).value;
      assert !HasMark(PlainCell(TextOf(row.cells[k])));
    }
  }

  /** When the selector resolves, a row is displayed iff the term is empty or
      the search left a highlight in one of its cells. */
  lemma SearchVisibleIffHighlighted(row: RowView, term: string, selector: string)
    requires Resolves(row, selector)
    ensures var r := Searched(row, term, selector);
      r.visible <==> term == "" || exists j :: 0 <= j < |r.cells| && HasMark(r.cells[j])
  {
    var r := Searched(row, term, selector);
    forall j | 0 <= j < |r.cells|
      ensures HasMark(r.cells[j]) <==> term != "" && (selector == "all" || j == TargetCell(row, selector).value)
                                       && CellMatches(TextOf(row.cells[j]), term)
    {
      var t := TextOf(row.cells[j]);
      assert !HasMark(PlainCell(t));
      if term != "" {
        HighlightMarksIffContains(t, term);
      }
    }
    if selector != "all" {
      var k := TargetCell(row, selector).value;
      if term != "" && CellMatches(TextOf(row.cells[k]), term) {
        assert HasMark(r.cells[k]);
      }
    }
  }

  /** Unless the selector finds no cell, every marker the search leaves lowercases
      to the term, and cells have the browser's canonical shape. */
  lemma SearchMarksOnlyTerm(row: RowView, term: string, selector: string)
    requires Resolves(row, selector)
    ensures var r := Searched(row, term, selector);
      forall j :: 0 <= j < |r.cells| ==> MarksAreTerm(r.cells[j], term) && Canonical(r.cells[j])
  {
    var r := Searched(row, term, selector);
    forall j | 0 <= j < |r.cells|
      ensures MarksAreTerm(r.cells[j], term) && Canonical(r.cells[j])
    {
      var t := TextOf(row.cells[j]);
      if CellMatches(t, term) {
        HighlightMarksTerm(t, term);
        HighlightCanonical(t, term);
      }
    }
  }

  /** A search never changes the text of a cell, only its markup. */
  lemma SearchKeepsText(row: RowView, term: string, selector: string)
    ensures var r := Searched(row, term, selector);
      |r.cells| == |row.cells| && forall j :: 0 <= j < |r.cells| ==> TextOf(r.cells[j]) == TextOf(row.cells[j])
  {
    var r := Searched(row, term, selector);
    forall j | 0 <= j < |r.cells|
      ensures TextOf(r.cells[j]) == TextOf(row.cells[j])
    {
      var t := TextOf(row.cells[j]);
      if CellMatches(t, term) {
        HighlightText(t, term);
      }
    }
  }

  /** Rows with the same cell texts search alike when the selector resolves:
      the result is derived from the text alone. */
  lemma SearchDependsOnlyOnText(a: RowView, b: RowView, term: string, selector: string)
    requires |a.cells| == |b.cells|
    requires forall j :: 0 <= j < |a.cells| ==> TextOf(a.cells[j]) == TextOf(b.cells[j])
    requires Resolves(a, selector)
    ensures Searched(a, term, selector) == Searched(b, term, selector)
  {
  }

  /** No markup accumulates across keystrokes: a search after any earlier
      search gives what it gives on the original row. */
  lemma SearchForgetsHistory(row: RowView, term1: string, selector1: string, term2: string, selector2: string)
    requires Resolves(row, selector2)
    ensures Searched(Searched(row, term1, selector1), term2, selector2) == Searched(row, term2, selector2)
  {
    SearchKeepsText(row, term1, selector1);
    SearchDependsOnlyOnText(row, Searched(row, term1, selector1), term2, selector2);
  }

  /** Emptying the search box, with a selector that resolves, shows the row
      and strips every highlight, as the clear button does. */
  lemma EmptyTermClears(row: RowView, selector: string)
    requires Resolves(row, selector)
    ensures Searched(row, "", selector) == Cleared(row)
  {
  }

  /** After any search, the clear button restores the row as it would the
      unsearched row. */
  lemma ClearUndoesSearch(row: RowView, term: string, selector: string)
    ensures Cleared(Searched(row, term, selector)) == Cleared(row)
  {
    SearchKeepsText(row, term, selector);
    assert Cleared(Searched(row, term, selector)).cells == Cleared(row).cells;
  }

  /** Clearing shows the row, keeps each cell's text and leaves no marker. */
  lemma ClearedPlain(row: RowView)
    ensures var r := Cleared(row);
      && r.visible && |r.cells| == |row.cells|
      && forall j :: 0 <= j < |r.cells| ==> TextOf(r.cells[j]) == TextOf(row.cells[j]) && !HasMark(r.cells[j])
  {
  }

  /** Clearing twice is clearing once. */
  lemma ClearedIdempotent(row: RowView)
    ensures Cleared(Cleared(row)) == Cleared(row)
  {
  }

  /** The body of the search handler for one row: the cell loops of both
      modes, then the display decision. */
  method SearchRow(row: RowView, term: string, selector: string) returns (r: RowView)
    ensures r == Searched(row, term, selector)
  {
    var cells := row.cells;
    var rowMatches := false;
    if selector == "all" {
      var j := 0;
      while j < |cells|
        invariant 0 <= j <= |cells| == |row.cells|
        invariant forall i :: 0 <= i < j ==> cells[i] == SearchCell(TextOf(row.cells[i]), term)
        invariant forall i :: j <= i < |cells| ==> cells[i] == row.cells[i]
        invariant rowMatches <==> exists i :: 0 <= i < j && CellMatches(TextOf(row.cells[i]), term)
      {
        var originalText := TextOf(cells[j]);
        if term != "" && Contains(Lower(originalText), term) {
          cells := cells[j := Highlight(originalText, term)];
          rowMatches := true;
        } else {
          cells := cells[j := PlainCell(originalText)];
        }
        j := j + 1;
      }
    } else {
      var columnIndex := ColumnIndex(selector);
      if columnIndex.Some? && columnIndex.value < |cells| {
        var k := columnIndex.value;
        var originalText := TextOf(cells[k]);
        var j := 0;
        while j < |cells|
          invariant 0 <= j <= |cells| == |row.cells|
          invariant forall i :: 0 <= i < j ==> cells[i] == PlainCell(TextOf(row.cells[i]))
          invariant forall i :: j <= i < |cells| ==> cells[i] == row.cells[i]
        {
          cells := cells[j := PlainCell(TextOf(cells[j]))];
          j := j + 1;
        }
        if term != "" && Contains(Lower(originalText), term) {
          cells := cells[k := Highlight(originalText, term)];
          rowMatches := true;
        }
      }
    }
    r := RowView(cells, term == "" || rowMatches);
  }

  /** The body of the clear handler for one row. */
  method ClearRow(row: RowView) returns (r: RowView)
    ensures r == Cleared(row)
  {
    var cells := row.cells;
    var j := 0;
    while j < |cells|
      invariant 0 <= j <= |cells| == |row.cells|
      invariant forall i :: 0 <= i < j ==> cells[i] == PlainCell(TextOf(row.cells[i]))
      invariant forall i :: j <= i < |cells| ==> cells[i] == row.cells[i]
    {
      cells := cells[j := PlainCell(TextOf(cells[j]))];
      j := j + 1;
    }
    r := RowView(cells, true);
  }
}
