/** The rendered table body and the handlers that change it: rebuilding it
    from the store, the manual-entry form, the search box and the clear
    button. */
module TableView {
  import opened Text
  import opened Records
  import opened Store
  import opened CellMarkup
  import opened Search

  /** A newly created row (`<tr>` of `<td>${text}</td>` cells): displayed,
      every cell plain text. */
  function PlainRow(texts: seq<string>): (r: RowView)
    ensures r.visible && |r.cells| == |texts|
    ensures forall j :: 0 <= j < |texts| ==> TextOf(r.cells[j]) == texts[j] && !HasMark(r.cells[j])
  {
    RowView(seq(|texts|, j requires 0 <= j < |texts| => PlainCell(texts[j])), true)
  }

  /** The table body `loadComponentsFromDatabase` builds: one row per record,
      in the order given, showing the record's eleven display columns. */
  function RenderedRows(cs: seq<Component>): (rows: seq<RowView>)
    ensures |rows| == |cs|
    ensures forall i :: 0 <= i < |cs| ==> rows[i] == PlainRow(DisplayCells(cs[i].fields))
  {
    seq(|cs|, i requires 0 <= i < |cs| => PlainRow(DisplayCells(cs[i].fields)))
  }

  /** Every rendered row is displayed, has eleven plain cells, and shows the
      record's fields, a falsy floor as the empty text. */
  lemma RenderedRowShowsRecord(cs: seq<Component>, i: nat)
    requires i < |cs|
    ensures var row, f := RenderedRows(cs)[i], cs[i].fields;
      && row.visible && |row.cells| == DisplayColumnCount
      && (forall j :: 0 <= j < |row.cells| ==> !HasMark(row.cells[j]))
      && TextOf(row.cells[0]) == f.drawing && TextOf(row.cells[4]) == f.tag
      && TextOf(row.cells[5]) == f.componentType && TextOf(row.cells[10]) == f.description
      && (TextOf(row.cells[7]) == "" <==> f.floor == FloorInt(0) || f.floor == FloorText(""))
  {
  }

  /** The column a search selector resolves to shows the field it names. */
  lemma SelectorShowsField(f: Fields)
    ensures var cells := DisplayCells(f);
      && cells[ColumnIndex("drawing").value] == f.drawing
      && cells[ColumnIndex("building").value] == f.building
      && cells[ColumnIndex("unit").value] == f.unit
      && cells[ColumnIndex("area").value] == f.area
      && cells[ColumnIndex("tag").value] == f.tag
      && cells[ColumnIndex("component").value] == f.componentType
      && cells[ColumnIndex("subtype").value] == f.subType
      && cells[ColumnIndex("floor").value] == FloorDisplay(f.floor)
      && cells[ColumnIndex("regulation").value] == f.regulation
      && cells[ColumnIndex("chemical").value] == f.chemicalState
      && cells[ColumnIndex("description").value] == f.description
  {
    ColumnIndexLeading();
    ColumnIndexMiddle();
    ColumnIndexTrailing();
  }

  /** The eleven inputs of the manual-entry form. */
  datatype EntryForm = EntryForm(
    drawing: string, building: string, unit: string, area: string, tag: string,
    componentType: string, subType: string, floor: string, regulation: string,
    chemical: string, description: string)

  /** The form's values in display order, which is also the order the
      handler collects them in. */
  function FormValues(form: EntryForm): (vs: seq<string>)
    ensures |vs| == DisplayColumnCount
  {
    [form.drawing, form.building, form.unit, form.area, form.tag, form.componentType,
     form.subType, form.floor, form.regulation, form.chemical, form.description]
  }

  /** Each form value lands in the column whose search selector names it. */
  lemma FormValuesByColumn(form: EntryForm)
    ensures var vs := FormValues(form);
      && vs[ColumnIndex("drawing").value] == form.drawing
      && vs[ColumnIndex("building").value] == form.building
      && vs[ColumnIndex("unit").value] == form.unit
      && vs[ColumnIndex("area").value] == form.area
      && vs[ColumnIndex("tag").value] == form.tag
      && vs[ColumnIndex("component").value] == form.componentType
      && vs[ColumnIndex("subtype").value] == form.subType
      && vs[ColumnIndex("floor").value] == form.floor
      && vs[ColumnIndex("regulation").value] == form.regulation
      && vs[ColumnIndex("chemical").value] == form.chemical
      && vs[ColumnIndex("description").value] == form.description
  {
    ColumnIndexLeading();
    ColumnIndexMiddle();
    ColumnIndexTrailing();
  }

  /** The save handler's check: every value is trimmed, and the entry is
      rejected exactly when some input is blank or only whitespace. */
  function ValidateEntry(form: EntryForm): (r: Option<seq<string>>)
    ensures r.None? <==> exists i :: 0 <= i < DisplayColumnCount && AllWhitespace(FormValues(form)[i])
    ensures r.Some? ==> |r.value| == DisplayColumnCount
    ensures r.Some? ==> forall i :: 0 <= i < DisplayColumnCount ==>
      r.value[i] == Trim(FormValues(form)[i]) && r.value[i] != ""
  {
    var vs := FormValues(form);
    var trimmed := seq(DisplayColumnCount, i requires 0 <= i < DisplayColumnCount => Trim(vs[i]));
    assert forall i :: 0 <= i < DisplayColumnCount ==> (trimmed[i] == "" <==> AllWhitespace(vs[i]));
    if exists i :: 0 <= i < DisplayColumnCount && trimmed[i] == "" then None else Some(trimmed)
  }

  /** A valid entry's row carries no surrounding whitespace in any cell. */
  lemma EntryCellsTrimmed(form: EntryForm)
    requires ValidateEntry(form).Some?
    ensures var row := PlainRow(ValidateEntry(form).value);
      forall j :: 0 <= j < |row.cells| ==>
        Trim(TextOf(row.cells[j])) == TextOf(row.cells[j]) && TextOf(row.cells[j]) != ""
  {
  }

  /** The search box's value is used as a regular expression; without these
      characters that expression matches the value literally. */
  predicate NoPatternChars(query: string)
  {
    forall i :: 0 <= i < |query| ==> query[i] !in "\\^$.|?*+()[]{}"
  }

  class Table {
    /** The rows of the table body, top to bottom. */
    var rows: seq<RowView>

    /** The table body as the page first shows it. */
    constructor (initial: seq<RowView>)
      ensures rows == initial
    {
      rows := initial;
    }

    /** `loadComponentsFromDatabase`: empty the body, then append one row
        per record of `SELECT * ... ORDER BY id`. */
    method Render(store: RecordStore)
      requires store.Valid()
      modifies this
      ensures rows == RenderedRows(store.records)
    {
      rows := [];
      var records := store.SelectOrderedById();
      var i := 0;
      while i < |records|
        invariant 0 <= i <= |records|
        invariant rows == RenderedRows(records[..i])
      {
        rows := rows + [PlainRow(DisplayCells(records[i].fields))];
        i := i + 1;
        assert rows == RenderedRows(records[..i]);
      }
      assert records[..i] == records;
    }

    /** The save handler: a complete entry appends exactly one displayed
        row of the trimmed values; an incomplete one changes nothing. The
        store is not written. */
    method AddEntry(form: EntryForm) returns (added: bool)
      modifies this
      ensures added <==> ValidateEntry(form).Some?
      ensures added ==> rows == old(rows) + [PlainRow(ValidateEntry(form).value)]
      ensures !added ==> rows == old(rows)
    {
      var entry := ValidateEntry(form);
      if entry.None? {
        return false;
      }
      rows := rows + [PlainRow(entry.value)];
      added := true;
    }

    /** The search box's `input` handler: every row is searched for the
        lower-cased query in the selected column or columns. */
    method Search(query: string, selector: string)
      requires NoPatternChars(query)
      modifies this
      ensures |rows| == |old(rows)|
      ensures forall i :: 0 <= i < |rows| ==> rows[i] == Searched(old(rows)[i], Lower(query), selector)
    {
      var searchTerm := Lower(query);
      var i := 0;
      while i < |rows|
        invariant 0 <= i <= |rows| == |old(rows)|
        invariant forall k :: 0 <= k < i ==> rows[k] == Searched(old(rows)[k], searchTerm, selector)
        invariant forall k :: i <= k < |rows| ==> rows[k] == old(rows)[k]
      {
        var row := SearchRow(rows[i], searchTerm, selector);
        rows := rows[i := row];
        i := i + 1;
      }
    }

    /** The clear button: every cell back to plain text, every row shown. */
    method Clear()
      modifies this
      ensures |rows| == |old(rows)|
      ensures forall i :: 0 <= i < |rows| ==> rows[i] == Cleared(old(rows)[i])
    {
      var i := 0;
      while i < |rows|
        invariant 0 <= i <= |rows| == |old(rows)|
        invariant forall k :: 0 <= k < i ==> rows[k] == Cleared(old(rows)[k])
        invariant forall k :: i <= k < |rows| ==> rows[k] == old(rows)[k]
      {
        var row := ClearRow(rows[i]);
        rows := rows[i := row];
        i := i + 1;
      }
    }
  }
}
