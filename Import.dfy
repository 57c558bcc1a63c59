/** The upload button's handler: read the first sheet, replace the table's
    contents with its rows, and rebuild the table body. */
module Import {
  import opened Records
  import opened Store
  import opened TableView

  /** What reading the chosen file gives: no file chosen, a file the
      spreadsheet reader cannot decode, or the rows of its first sheet. */
  datatype Workbook = NoFileSelected | Unreadable | FirstSheet(rows: seq<SheetRow>)

  /** The outcome shown in the upload status line. */
  datatype Status = SelectFileFirst | ReadError | Loaded(count: nat)

  /** The records an import stores: one per sheet row, in sheet order. */
  function NormaliseAll(rows: seq<SheetRow>): (fs: seq<Fields>)
    ensures |fs| == |rows|
    ensures forall i :: 0 <= i < |rows| ==> fs[i] == Normalise(rows[i])
  {
    seq(|rows|, i requires 0 <= i < |rows| => Normalise(rows[i]))
  }

  /** A failed read changes nothing. A decoded sheet replaces every record:
      the store then holds exactly one record per sheet row, in sheet order,
      under fresh ids, and the table body shows them. */
  method ImportWorkbook(book: Workbook, store: RecordStore, table: Table) returns (status: Status)
    requires store.Valid()
    modifies store, table
    ensures store.Valid()
    ensures book.NoFileSelected? ==> status == SelectFileFirst && unchanged(store, table)
    ensures book.Unreadable? ==> status == ReadError && unchanged(store, table)
    ensures book.FirstSheet? ==>
      && status == Loaded(|book.rows|)
      && FieldsOf(store.records) == NormaliseAll(book.rows)
      && (forall k :: 0 <= k < |store.records| ==> store.records[k].id > old(store.lastId))
      && store.lastId == old(store.lastId) + |book.rows|
      && table.rows == RenderedRows(store.records)
  {
    match book
    case NoFileSelected =>
      status := SelectFileFirst;
    case Unreadable =>
      status := ReadError;
    case FirstSheet(rows) =>
      store.DeleteAll();
      var i := 0;
      while i < |rows|
        invariant 0 <= i <= |rows|
        invariant store.Valid()
        invariant FieldsOf(store.records) == NormaliseAll(rows[..i])
        invariant store.lastId == old(store.lastId) + i
        invariant forall k :: 0 <= k < |store.records| ==> store.records[k].id > old(store.lastId)
      {
        var _ := store.Insert(Normalise(rows[i]));
        i := i + 1;
        assert FieldsOf(store.records) == NormaliseAll(rows[..i]);
      }
      assert rows[..i] == rows;
      table.Render(store);
      status := Loaded(|rows|);
  }

  /** Two imports in a row: the store ends with the second sheet's records
      only, none from the first, and no id of the first import is reused. */
  method ImportTwice(first: seq<SheetRow>, second: seq<SheetRow>, store: RecordStore, table: Table)
    requires store.Valid()
    modifies store, table
    ensures store.Valid()
    ensures FieldsOf(store.records) == NormaliseAll(second)
    ensures forall k :: 0 <= k < |store.records| ==> store.records[k].id > old(store.lastId) + |first|
  {
    var s1 := ImportWorkbook(FirstSheet(first), store, table);
    var s2 := ImportWorkbook(FirstSheet(second), store, table);
  }
}
