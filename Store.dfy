/** The `components` table: rows with an AUTOINCREMENT id, emptied by
    `DELETE FROM components` and read back `ORDER BY id`. */
module Store {
  import opened Records

  /** A stored row: its id and its fourteen data columns. */
  datatype Component = Component(id: nat, fields: Fields)

  /** Ids strictly ascending along the sequence. */
  predicate AscendingIds(cs: seq<Component>)
  {
    forall i, j :: 0 <= i < j < |cs| ==> cs[i].id < cs[j].id
  }

  function FieldsOf(cs: seq<Component>): (fs: seq<Fields>)
    ensures |fs| == |cs|
    ensures forall i :: 0 <= i < |cs| ==> fs[i] == cs[i].fields
  {
    seq(|cs|, i requires 0 <= i < |cs| => cs[i].fields)
  }

  class RecordStore {
    /** The rows, in insertion order. */
    var records: seq<Component>
    /** The largest id ever handed out (SQLite's `sqlite_sequence` entry);
        AUTOINCREMENT never hands out an id at or below it again. */
    var lastId: nat

    ghost predicate Valid()
      reads this
    {
      && AscendingIds(records)
      && forall i :: 0 <= i < |records| ==> 0 < records[i].id <= lastId
    }

    /** `CREATE TABLE components (id INTEGER PRIMARY KEY AUTOINCREMENT, ...)`. */
    constructor ()
      ensures Valid() && records == [] && lastId == 0
    {
      records := [];
      lastId := 0;
    }

    /** `DELETE FROM components`: every row goes, the id counter stays. */
    method DeleteAll()
      modifies this
      ensures Valid() && records == [] && lastId == old(lastId)
    {
      records := [];
    }

    /** One `INSERT`: the row is appended under a fresh id larger than every
        id used before. */
    method Insert(f: Fields) returns (id: nat)
      requires Valid()
      modifies this
      ensures Valid()
      ensures id == old(lastId) + 1 && lastId == id
      ensures records == old(records) + [Component(id, f)]
    {
      id := lastId + 1;
      records := records + [Component(id, f)];
      lastId := id;
    }

    /** `SELECT * FROM components ORDER BY id`: the rows in ascending id
        order, which is their insertion order. */
    method SelectOrderedById() returns (rows: seq<Component>)
      requires Valid()
      ensures AscendingIds(rows)
      ensures rows == records
    {
      rows := records;
    }
  }
}
