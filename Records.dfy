/** The component record and the mapping from a parsed spreadsheet row to the
    fourteen columns of the `components` table. */
module Records {
  import opened Text

  /** A cell value as the spreadsheet reader hands it over: text, a number
      or a boolean. */
  datatype SheetValue = SheetText(s: string) | SheetNumber(n: int) | SheetBool(b: bool)

  /** One parsed spreadsheet row, keyed by the header of its column. */
  type SheetRow = map<string, SheetValue>

  /** JavaScript falsiness of a sheet value: `''`, `0` and `false`. */
  predicate Falsy(v: SheetValue)
  {
    match v
    case SheetText(s) => s == ""
    case SheetNumber(n) => n == 0
    case SheetBool(b) => !b
  }

  /** A statement parameter as sql.js binds it: strings as text; a number
      that fits in 32 bits (`num === (num|0)`) and a boolean as an integer;
      any other number as a REAL, here always one with an integral value. */
  datatype Bound = BoundText(s: string) | BoundInt(n: int) | BoundReal(n: int)

  /** The numbers `num|0` leaves unchanged. */
  predicate IsInt32(n: int)
  {
    -0x8000_0000 <= n < 0x8000_0000
  }

  /** `row[header] || ''`, then bound: every absent or falsy value becomes
      the empty text, and nothing else does. */
  function BindField(row: SheetRow, header: string): (v: Bound)
    ensures v == BoundText("") <==> header !in row || Falsy(row[header])
    ensures header in row && row[header].SheetText? && !Falsy(row[header]) ==> v == BoundText(row[header].s)
    ensures header in row && row[header].SheetNumber? && !Falsy(row[header]) ==>
      v == if IsInt32(row[header].n) then BoundInt(row[header].n) else BoundReal(row[header].n)
    ensures header in row && row[header] == SheetBool(true) ==> v == BoundInt(1)
  {
    if header !in row || Falsy(row[header]) then BoundText("")
    else match row[header]
      case SheetText(s) => BoundText(s)
      case SheetNumber(n) => if IsInt32(n) then BoundInt(n) else BoundReal(n)
      case SheetBool(_) => BoundInt(1)
  }

  /** What a column of TEXT affinity stores: an integer becomes its decimal
      spelling, an integral REAL that spelling followed by `.0`. */
  function TextColumn(v: Bound): (s: string)
    ensures s == "" <==> v == BoundText("")
  {
    match v
    case BoundText(s) => s
    case BoundInt(n) => DecimalString(n)
    case BoundReal(n) => DecimalString(n) + ".0"
  }

  /** What the INTEGER `floor` column stores: an integer; a REAL with a
      non-zero fractional part, as its sign, its integer part and its
      fraction digits; or text that is no numeric literal. */
  datatype Floor = FloorInt(n: int) | FloorReal(negative: bool, whole: nat, fraction: string) | FloorText(s: string)

  /** The values the floor column can hold: a fraction is non-zero and has no
      trailing zero, and kept text is no numeric literal. */
  predicate StoredFloor(f: Floor)
  {
    match f
    case FloorInt(_) => true
    case FloorReal(_, _, fraction) => fraction != [] && AllDigits(fraction) && fraction[|fraction| - 1] != '0'
    case FloorText(s) => !IsIntegerLiteral(s) && !IsDecimalLiteral(s)
  }

  /** The value of a decimal literal: an integer when its fraction digits are
      all zero, a REAL otherwise. */
  function DecimalValue(s: string): (f: Floor)
    requires IsDecimalLiteral(s)
    ensures StoredFloor(f) && !f.FloorText?
  {
    var u := Unsigned(s);
    var d := PointIndex(u);
    var whole := DigitsValue(u[..d]);
    var fraction := StripTrailingZeros(u[d + 1..]);
    var negative := s[0] == '-';
    if fraction == [] then FloorInt(if negative then 0 - whole else whole)
    else FloorReal(negative, whole, fraction)
  }

  /** INTEGER affinity: an integer literal or an integral REAL becomes an
      integer, a decimal literal its value, and any other text is kept. */
  function IntegerColumn(v: Bound): (f: Floor)
    ensures StoredFloor(f)
    ensures f == FloorText("") <==> v == BoundText("")
    ensures v.BoundText? && IsDecimalLiteral(v.s) ==> f == DecimalValue(v.s)
  {
    match v
    case BoundInt(n) => FloorInt(n)
    case BoundReal(n) => FloorInt(n)
    case BoundText(s) =>
      if IsIntegerLiteral(s) then
        IntegerNotDecimal(s);
        FloorInt(ParseInteger(s))
      else if IsDecimalLiteral(s) then DecimalValue(s)
      else FloorText(s)
  }

  /** The fourteen data columns of the `components` table. */
  datatype Fields = Fields(
    client: string, description: string, building: string, unit: string,
    area: string, tag: string, drawing: string, floor: Floor,
    componentType: string, subType: string, regulation: string,
    chemicalState: string, dtm: string, utm: string)

  /** The header each text column is read from, in INSERT parameter order
      (the floor column, read from "Floor", is handled apart). */
  const TextHeaders: seq<string> := ["Client", "Description", "Building", "Unit", "Area", "Tag",
    "Drawing", "Component Type", "Sub Type", "Regulation", "Chemical State", "DTM", "UTM"]

  const FloorHeader: string := "Floor"

  /** The text column that the header at `k` of TextHeaders fills. */
  function TextColumnAt(f: Fields, k: nat): string
    requires k < |TextHeaders|
  {
    match k
    case 0 => f.client
    case 1 => f.description
    case 2 => f.building
    case 3 => f.unit
    case 4 => f.area
    case 5 => f.tag
    case 6 => f.drawing
    case 7 => f.componentType
    case 8 => f.subType
    case 9 => f.regulation
    case 10 => f.chemicalState
    case 11 => f.dtm
    case 12 => f.utm
  }

  /** The text column filled from `header`: `row[header] || ''`, bound and
      stored with TEXT affinity. */
  function TextFrom(row: SheetRow, header: string): (s: string)
    ensures s == "" <==> header !in row || Falsy(row[header])
  {
    TextColumn(BindField(row, header))
  }

  /** The floor column filled from "Floor": `row.Floor || ''`, bound and
      stored with INTEGER affinity. */
  function FloorFrom(row: SheetRow): (f: Floor)
    ensures f == FloorText("") <==> FloorHeader !in row || Falsy(row[FloorHeader])
  {
    IntegerColumn(BindField(row, FloorHeader))
  }

  /** The per-row mapping of the import loop. */
  function Normalise(row: SheetRow): Fields
  {
    Fields(
      client := TextFrom(row, "Client"),
      description := TextFrom(row, "Description"),
      building := TextFrom(row, "Building"),
      unit := TextFrom(row, "Unit"),
      area := TextFrom(row, "Area"),
      tag := TextFrom(row, "Tag"),
      drawing := TextFrom(row, "Drawing"),
      floor := FloorFrom(row),
      componentType := TextFrom(row, "Component Type"),
      subType := TextFrom(row, "Sub Type"),
      regulation := TextFrom(row, "Regulation"),
      chemicalState := TextFrom(row, "Chemical State"),
      dtm := TextFrom(row, "DTM"),
      utm := TextFrom(row, "UTM"))
  }

  /** The k-th text column of a normalised row comes from the k-th header. */
  lemma TextColumnAtHeader(row: SheetRow, k: nat)
    requires k < |TextHeaders|
    ensures TextColumnAt(Normalise(row), k) == TextFrom(row, TextHeaders[k])
  {
    match k
    case 0 => case 1 => case 2 => case 3 => case 4 => case 5 => case 6 =>
    case 7 => case 8 => case 9 => case 10 => case 11 => case 12 =>
  }

  /** Each text column is empty exactly when its header is absent from the
      row or holds a falsy value; a non-empty text value is kept verbatim, a
      non-zero 32-bit number is kept as its decimal spelling, and a larger
      one, bound as a REAL, as that spelling followed by `.0`. */
  lemma NormaliseTextColumn(row: SheetRow, k: nat)
    requires k < |TextHeaders|
    ensures var h, s := TextHeaders[k], TextColumnAt(Normalise(row), k);
      && (s == "" <==> h !in row || Falsy(row[h]))
      && (h in row && row[h].SheetText? ==> s == row[h].s)
      && (h in row && row[h].SheetNumber? && row[h].n != 0 && IsInt32(row[h].n) ==> s == DecimalString(row[h].n))
      && (h in row && row[h].SheetNumber? && !IsInt32(row[h].n) ==> s == DecimalString(row[h].n) + ".0")
      && (h in row && row[h] == SheetBool(true) ==> s == "1")
  {
    TextColumnAtHeader(row, k);
  }

  /** The floor column is the empty text exactly when "Floor" is absent or
      falsy (a numeric 0 included); a number is stored as that integer, and so
      is an integer literal; a decimal literal is stored as its value. */
  lemma NormaliseFloor(row: SheetRow)
    ensures Normalise(row).floor == FloorText("") <==> FloorHeader !in row || Falsy(row[FloorHeader])
    ensures FloorHeader in row && row[FloorHeader].SheetNumber? && row[FloorHeader].n != 0
      ==> Normalise(row).floor == FloorInt(row[FloorHeader].n)
    ensures FloorHeader in row && row[FloorHeader].SheetText? && IsIntegerLiteral(row[FloorHeader].s)
      ==> Normalise(row).floor == FloorInt(ParseInteger(row[FloorHeader].s))
    ensures FloorHeader in row && row[FloorHeader].SheetText? && IsDecimalLiteral(row[FloorHeader].s)
      ==> Normalise(row).floor == DecimalValue(row[FloorHeader].s)
    ensures FloorHeader in row && row[FloorHeader] == SheetBool(true) ==> Normalise(row).floor == FloorInt(1)
  {
  }

  /** A number and its decimal spelling in the "Floor" column give the same
      record. */
  lemma FloorSpellingIrrelevant(row: SheetRow, n: int)
    requires n != 0
    ensures Normalise(row[FloorHeader := SheetNumber(n)]) == Normalise(row[FloorHeader := SheetText(DecimalString(n))])
  {
    var byNumber, bySpelling := row[FloorHeader := SheetNumber(n)], row[FloorHeader := SheetText(DecimalString(n))];
    SpellingStoresInteger(n);
    NumberStoresInteger(n);
    NormaliseOnlyFloorDiffers(byNumber, bySpelling);
  }

  /** The decimal spelling of an integer is stored as that integer. */
  lemma SpellingStoresInteger(n: int)
    ensures IntegerColumn(BoundText(DecimalString(n))) == FloorInt(n)
  {
    DecimalRoundTrip(n);
  }

  /** A number, bound as an integer or as a REAL, is stored as that integer. */
  lemma NumberStoresInteger(n: int)
    requires n != 0
    ensures IntegerColumn(BindField(map[FloorHeader := SheetNumber(n)], FloorHeader)) == FloorInt(n)
  {
  }

  /** Two rows that differ at most in "Floor" and store the same floor give
      the same record. */
  lemma NormaliseOnlyFloorDiffers(a: SheetRow, b: SheetRow)
    requires forall h :: h != FloorHeader ==> (h in a <==> h in b) && (h in a ==> a[h] == b[h])
    requires FloorFrom(a) == FloorFrom(b)
    ensures Normalise(a) == Normalise(b)
  {
    TextFromAgrees(a, b, "Client");
    TextFromAgrees(a, b, "Description");
    TextFromAgrees(a, b, "Building");
    TextFromAgrees(a, b, "Unit");
    TextFromAgrees(a, b, "Area");
    TextFromAgrees(a, b, "Tag");
    TextFromAgrees(a, b, "Drawing");
    TextFromAgrees(a, b, "Component Type");
    TextFromAgrees(a, b, "Sub Type");
    TextFromAgrees(a, b, "Regulation");
    TextFromAgrees(a, b, "Chemical State");
    TextFromAgrees(a, b, "DTM");
    TextFromAgrees(a, b, "UTM");
  }

  /** A text column reads the same from two rows that agree on its header. */
  lemma TextFromAgrees(a: SheetRow, b: SheetRow, h: string)
    requires h != FloorHeader
    requires forall h :: h != FloorHeader ==> (h in a <==> h in b) && (h in a ==> a[h] == b[h])
    ensures TextFrom(a, h) == TextFrom(b, h)
  {
  }

  /** Columns other than the fourteen known headers are ignored. */
  lemma NormaliseReadsOnlyHeaders(row: SheetRow, extra: string, v: SheetValue)
    requires extra !in TextHeaders && extra != FloorHeader
    ensures Normalise(row[extra := v]) == Normalise(row)
  {
  }

  /** The display form of the floor column: `row.floor || ''`, a number as
      JavaScript spells it. */
  function FloorDisplay(f: Floor): (s: string)
    ensures s == "" <==> f == FloorInt(0) || f == FloorText("")
  {
    match f
    case FloorInt(n) => if n == 0 then "" else DecimalString(n)
    case FloorReal(negative, whole, fraction) => (if negative then "-" else "") + NatDigits(whole) + "." + fraction
    case FloorText(s) => s
  }

  /** The shown floor, typed back into the "Floor" column, is stored as the
      same floor, except that the blank shown for 0 is stored as the empty
      text. */
  lemma FloorDisplayReadsBack(f: Floor)
    requires StoredFloor(f)
    ensures IntegerColumn(BoundText(FloorDisplay(f))) == if f == FloorInt(0) then FloorText("") else f
  {
    match f
    case FloorInt(n) =>
      if n != 0 {
        SpellingStoresInteger(n);
      }
    case FloorReal(negative, whole, fraction) =>
      RealSpellingReadsBack(negative, whole, fraction);
    case FloorText(_) =>
  }

  /** The spelling of a REAL floor is a decimal literal whose value is that
      REAL. */
  lemma RealSpellingReadsBack(negative: bool, whole: nat, fraction: string)
    requires StoredFloor(FloorReal(negative, whole, fraction))
    ensures IntegerColumn(BoundText(FloorDisplay(FloorReal(negative, whole, fraction)))) == FloorReal(negative, whole, fraction)
  {
    var digits := NatDigits(whole);
    var t := FloorDisplay(FloorReal(negative, whole, fraction));
    var u := digits + "." + fraction;
    assert t == (if negative then "-" else "") + u;
    SignedSpelling(negative, u);
    PointedDigits(digits, fraction);
    NatDigitsRoundTrip(whole);
    assert StripTrailingZeros(fraction) == fraction;
    assert DecimalValue(t) == FloorReal(negative, whole, fraction);
    if IsIntegerLiteral(t) {
      IntegerNotDecimal(t);
    }
  }

  /** The eleven display columns, in table order. */
  const DisplayColumnCount: nat := 11

  /** The cells of the rendered row for a record: drawing, building, unit,
      area, tag, component type, sub type, floor, regulation, chemical state,
      description. */
  function DisplayCells(f: Fields): (cells: seq<string>)
    ensures |cells| == DisplayColumnCount
    ensures cells[7] == FloorDisplay(f.floor)
  {
    [f.drawing, f.building, f.unit, f.area, f.tag, f.componentType, f.subType,
     FloorDisplay(f.floor), f.regulation, f.chemicalState, f.description]
  }

  /** Rendering shows an imported floor as the number it holds: a number as
      its decimal spelling, a numeric literal in the spelling that reads
      back as the same stored value, 0 however spelled as blank, and other
      text verbatim. */
  lemma RenderedFloor(row: SheetRow)
    ensures FloorHeader in row && row[FloorHeader].SheetNumber?
      ==> DisplayCells(Normalise(row))[7] == if row[FloorHeader].n == 0 then "" else DecimalString(row[FloorHeader].n)
    ensures FloorHeader in row && row[FloorHeader].SheetText? && !IsIntegerLiteral(row[FloorHeader].s)
      && !IsDecimalLiteral(row[FloorHeader].s)
      ==> DisplayCells(Normalise(row))[7] == row[FloorHeader].s
    ensures Normalise(row).floor != FloorInt(0)
      ==> IntegerColumn(BoundText(DisplayCells(Normalise(row))[7])) == Normalise(row).floor
    ensures Normalise(row).floor.FloorReal?
      ==> var d := DisplayCells(Normalise(row))[7]; d != [] && d[|d| - 1] != '0'
    ensures FloorHeader in row && row[FloorHeader] == SheetText("0") ==> DisplayCells(Normalise(row))[7] == ""
    ensures FloorHeader in row && row[FloorHeader] == SheetText("1.50") ==> DisplayCells(Normalise(row))[7] == "1.5"
  {
    var f := Normalise(row).floor;
    assert f == FloorFrom(row);
    FloorDisplayReadsBack(f);
    RenderedRealFloor(row);
    if FloorHeader in row && row[FloorHeader] == SheetText("1.50") {
      assert BindField(row, FloorHeader) == BoundText("1.50");
      TrailingZeroNotShown();
    }
  }

  /** A REAL floor is shown without trailing zeros. */
  lemma RenderedRealFloor(row: SheetRow)
    ensures Normalise(row).floor.FloorReal?
      ==> var d := DisplayCells(Normalise(row))[7]; d != [] && d[|d| - 1] != '0'
  {
    var f := Normalise(row).floor;
    assert f == FloorFrom(row);
    if f.FloorReal? {
      RealShownWithoutTrailingZero(f);
    }
  }

  /** A REAL floor is shown ending in the last of its fraction digits, which
      is never a zero. */
  lemma RealShownWithoutTrailingZero(f: Floor)
    requires f.FloorReal? && StoredFloor(f)
    ensures var d := FloorDisplay(f); d != [] && d[|d| - 1] == f.fraction[|f.fraction| - 1] != '0'
  {
    var d := FloorDisplay(f);
    var prefix := (if f.negative then "-" else "") + NatDigits(f.whole) + ".";
    assert d == prefix + f.fraction;
  }

  /** The floor "1.50" is stored as the REAL 1.5 and shown as "1.5". */
  lemma TrailingZeroNotShown()
    ensures FloorDisplay(IntegerColumn(BoundText("1.50"))) == "1.5"
  {
    OneFiftyIsDecimal();
    OneFiftyValue();
    assert IntegerColumn(BoundText("1.50")) == FloorReal(false, 1, "5");
    OneFiveShown();
  }

  /** The REAL 1.5 is shown as "1.5". */
  lemma OneFiveShown()
    ensures FloorDisplay(FloorReal(false, 1, "5")) == "1.5"
  {
    assert DigitChar(1) == '1';
    assert NatDigits(1) == "1";
  }

  /** "1.50" is a decimal literal and no integer literal. */
  lemma OneFiftyIsDecimal()
    ensures IsDecimalLiteral("1.50") && !IsIntegerLiteral("1.50")
  {
    var s := "1.50";
    assert s == "1" + "." + "50";
    PointedDigits("1", "50");
    assert !IsDigit(s[1]);
  }

  /** The value of "1.50": the REAL with integer part 1 and fraction "5". */
  lemma OneFiftyValue()
    requires IsDecimalLiteral("1.50")
    ensures DecimalValue("1.50") == FloorReal(false, 1, "5")
  {
    var s := "1.50";
    assert s == "1" + "." + "50";
    PointedDigits("1", "50");
    assert Unsigned(s) == s;
    assert DigitsValue("1") == 1 by {
      assert "1"[..0] == "";
    }
    assert StripTrailingZeros("50") == "5" by {
      assert "50"[..1] == "5";
    }
  }
}
